/** protect_segment (tools/translate_ts.py, 582-610) cuts a line into pieces, one
    substitution at a time: the protected line is the sealed form of the pieces, and the
    pieces still hold the whole line. */
module SentinelProtect {
  import opened SentinelRules
  import opened SentinelWords
  import opened SentinelPieces
  import opened SentinelRestore

  /** Neither mnemonics nor names yet. */
  predicate Basic(pieces: seq<Piece>) {
    pieces == []
    || (PieceOk([], pieces[0]) && !pieces[0].Accel? && !pieces[0].Name? && Basic(pieces[1..]))
  }

  /** Characters and placeholders that dropped nothing. */
  predicate Fresh(pieces: seq<Piece>) {
    pieces == []
    || (&& PieceOk([], pieces[0])
        && (pieces[0].Plain? || (pieces[0].Placeholder? && pieces[0].possessive == ""))
        && Fresh(pieces[1..]))
  }

  lemma {:induction false} BasicWellMade(terms: seq<string>, pieces: seq<Piece>)
    requires Basic(pieces)
    ensures WellMade(terms, pieces)
  {
    if pieces != [] {
      BasicWellMade(terms, pieces[1..]);
    }
  }

  lemma SealedFront(terms: seq<string>, pieces: seq<Piece>)
    requires pieces != [] && PieceOk(terms, pieces[0])
    ensures Sealed(pieces) != "" && Core(pieces[0]) != "" && Sealed(pieces)[0] == Core(pieces[0])[0]
    ensures pieces[0].Plain? ==> Sealed(pieces)[1..] == Sealed(pieces[1..])
    ensures !pieces[0].Plain? ==> Sealed(pieces)[0] in "PGRT"
  {
    if !pieces[0].Plain? {
      CoreTail(terms, pieces[0]);
    }
  }

  lemma ConsSealed(piece: Piece, pieces: seq<Piece>)
    ensures Sealed([piece] + pieces) == Core(piece) + Trail(piece) + Sealed(pieces)
    ensures Source([piece] + pieces) == SourceOf(piece) + Source(pieces)
  {
    assert ([piece] + pieces)[1..] == pieces;
  }

  /** A match becomes a sealed piece. */
  lemma CutHit(rule: Rule, behind: bool, front: string, rest: string, piece: Piece, pieces: seq<Piece>)
    requires front != "" && rule.take(behind, front + rest) == |front|
    requires rule.put(front) == Core(piece) && Trail(piece) == ""
    requires Sub(rule, Behind(behind, front), rest) == Sealed(pieces)
    ensures Sub(rule, behind, front + rest) == Sealed([piece] + pieces)
  {
    SubHit(rule, behind, front, rest);
    ConsSealed(piece, pieces);
  }

  /** A piece without a match stays. */
  lemma CutKeep(rule: Rule, behind: bool, piece: Piece, rest: string, pieces: seq<Piece>)
    requires var front := Core(piece) + Trail(piece);
             Quiet(rule, behind, front, rest) && Sub(rule, Behind(behind, front), rest) == Sealed(pieces)
    ensures Sub(rule, behind, Core(piece) + Trail(piece) + rest) == Sealed([piece] + pieces)
  {
    SubQuiet(rule, behind, Core(piece) + Trail(piece), rest);
    ConsSealed(piece, pieces);
  }

  // ----- Placeholders ---------------------------------------------------------

  function CutPlaceholders(text: string): seq<Piece>
    decreases |text|
  {
    if text == "" then []
    else
      var n := PlaceholderLength(text);
      if 0 < n <= |text| then [Placeholder(text[1..n], "")] + CutPlaceholders(text[n..])
      else [Plain(text[0])] + CutPlaceholders(text[1..])
  }

  lemma PlaceholderBody(text: string)
    requires PlaceholderLength(text) > 0
    ensures 2 <= PlaceholderLength(text) <= |text| && text[0] == '%'
    ensures var body := text[1..PlaceholderLength(text)];
            body == "n" || (body != "" && AllDigits(body) && body[0] != 'n')
  {
    if text[1] != 'n' {
      DigitRunDigits(text[1..]);
      assert text[1..PlaceholderLength(text)] == text[1..][..DigitRun(text[1..])];
    }
  }

  lemma PlaceholderPut(text: string)
    requires PlaceholderLength(text) > 0
    ensures var n := PlaceholderLength(text);
            n <= |text| && PlaceholderIn().put(text[..n]) == Core(Placeholder(text[1..n], ""))
  {
    PlaceholderBody(text);
    assert text[..PlaceholderLength(text)][1..] == text[1..PlaceholderLength(text)];
  }

  lemma SplitAt(text: string, n: nat)
    requires n <= |text|
    ensures text[..n] + text[n..] == text
  {
  }

  lemma {:induction false} PlaceholdersSealed(behind: bool, text: string)
    ensures Sub(PlaceholderIn(), behind, text) == Sealed(CutPlaceholders(text))
    decreases |text|
  {
    if text != "" {
      var n := PlaceholderLength(text);
      if n > 0 {
        PlaceholderPut(text);
        PlaceholdersSealed(Behind(behind, text[..n]), text[n..]);
        SplitAt(text, n);
        CutHit(PlaceholderIn(), behind, text[..n], text[n..], Placeholder(text[1..n], ""), CutPlaceholders(text[n..]));
      } else {
        PlaceholdersSealed(IsWord(text[0]), text[1..]);
        ConsSealed(Plain(text[0]), CutPlaceholders(text[1..]));
      }
    }
  }

  lemma {:induction false} PlaceholdersSource(text: string)
    ensures Source(CutPlaceholders(text)) == text
    decreases |text|
  {
    if text != "" {
      var n := PlaceholderLength(text);
      if n > 0 {
        PlaceholdersSource(text[n..]);
        PlaceholderInFront(text, n, CutPlaceholders(text[n..]));
      } else {
        PlaceholdersSource(text[1..]);
        PlainInFront(text, CutPlaceholders(text[1..]));
      }
    }
  }

  lemma PlaceholderInFront(text: string, n: nat, pieces: seq<Piece>)
    requires n == PlaceholderLength(text) > 0 && n <= |text| && Source(pieces) == text[n..]
    ensures Source([Placeholder(text[1..n], "")] + pieces) == text
  {
    PlaceholderBody(text);
    var piece := Placeholder(text[1..n], "");
    ConsSealed(piece, pieces);
    assert SourceOf(piece) == text[..n];
    SplitAt(text, n);
  }

  lemma PlainInFront(text: string, pieces: seq<Piece>)
    requires text != "" && Source(pieces) == text[1..]
    ensures Source([Plain(text[0])] + pieces) == text
  {
    ConsSealed(Plain(text[0]), pieces);
  }

  lemma {:induction false} PlaceholdersFresh(text: string)
    ensures Fresh(CutPlaceholders(text))
    decreases |text|
  {
    if text != "" {
      var n := PlaceholderLength(text);
      if n > 0 {
        PlaceholderBody(text);
        PlaceholdersFresh(text[n..]);
      } else {
        PlaceholdersFresh(text[1..]);
      }
    }
  }

  // ----- Possessives ----------------------------------------------------------

  predicate PossessivePieces(pieces: seq<Piece>) {
    && |pieces| >= 2 && (pieces[0] == Plain('\'') || pieces[0] == Plain('\U{2019}')) && pieces[1] == Plain('s')
    && (Sealed(pieces[2..]) == "" || !IsWord(Sealed(pieces[2..])[0]))
  }

  lemma PossessiveInPieces(pieces: seq<Piece>)
    requires Fresh(pieces)
    ensures PossessiveAt(Sealed(pieces)) <==> PossessivePieces(pieces)
  {
    if pieces != [] {
      SealedFront([], pieces);
      if |pieces| > 1 {
        SealedFront([], pieces[1..]);
        assert pieces[1..][1..] == pieces[2..];
      }
    }
  }

  function CutPossessives(pieces: seq<Piece>): seq<Piece> {
    if pieces == [] then []
    else if pieces[0].Placeholder? && PossessivePieces(pieces[1..]) then
      [Placeholder(pieces[0].body, [pieces[1].c, 's'])] + CutPossessives(pieces[3..])
    else [pieces[0]] + CutPossessives(pieces[1..])
  }

  lemma {:induction false} SilentPossessive(behind: bool, front: string, rest: string)
    requires Silent(front, rest)
    ensures Quiet(PossessiveIn(), behind, front, rest)
    decreases |front|
  {
    if front != "" {
      SilentPossessive(IsWord(front[0]), front[1..], rest);
    }
  }

  /** What the possessive pattern takes at a placeholder. */
  lemma PossessiveTakes(behind: bool, core: string, rest: string)
    requires Read(core + rest).1 == |core| && (Read(core + rest).0.Digits? || Read(core + rest).0.Plural?)
    ensures PossessiveIn().take(behind, core + rest) == if PossessiveAt(rest) then |core| + 2 else 0
  {
    assert (core + rest)[|core|..] == rest;
  }

  lemma PossessiveKept(behind: bool, core: string, rest: string)
    requires core != "" && PossessiveIn().take(behind, core + rest) == 0
    requires Silent(core[1..], rest)
    ensures Quiet(PossessiveIn(), behind, core, rest)
  {
    SilentPossessive(IsWord(core[0]), core[1..], rest);
  }

  lemma PossessivePut(core: string, quote: char)
    ensures PossessiveIn().put(core + [quote, 's']) == core
  {
    var taken := core + [quote, 's'];
    assert taken[..|taken| - 2] == core;
  }

  lemma PossessiveHit(behind: bool, core: string, quote: char, rest: string, piece: Piece, pieces: seq<Piece>)
    requires core != "" && core == Core(piece) && Trail(piece) == ""
    requires PossessiveIn().take(behind, core + ([quote, 's'] + rest)) == |core| + 2
    requires Sub(PossessiveIn(), Behind(behind, core + [quote, 's']), rest) == Sealed(pieces)
    ensures Sub(PossessiveIn(), behind, core + ([quote, 's'] + rest)) == Sealed([piece] + pieces)
  {
    Associative(core, [quote, 's'], rest);
    PossessivePut(core, quote);
    CutHit(PossessiveIn(), behind, core + [quote, 's'], rest, piece, pieces);
  }

  lemma PairFront(quote: char, text: string)
    ensures [quote] + "" + (['s'] + "" + text) == [quote, 's'] + text
    ensures [quote] + (['s'] + text) == [quote, 's'] + text
  {
  }

  lemma PossessiveParts(quote: char, pieces: seq<Piece>)
    ensures Sealed([Plain(quote), Plain('s')] + pieces) == [quote, 's'] + Sealed(pieces)
    ensures Source([Plain(quote), Plain('s')] + pieces) == [quote, 's'] + Source(pieces)
  {
    var behind := [Plain('s')] + pieces;
    assert [Plain(quote), Plain('s')] + pieces == [Plain(quote)] + behind;
    ConsSealed(Plain('s'), pieces);
    ConsSealed(Plain(quote), behind);
    PairFront(quote, Sealed(pieces));
    PairFront(quote, Source(pieces));
  }

  /** The pieces of a possessive and those behind it. */
  lemma PossessiveSplit(pieces: seq<Piece>) returns (quote: char, tail: seq<Piece>)
    requires Fresh(pieces) && PossessivePieces(pieces)
    ensures pieces == [Plain(quote), Plain('s')] + tail && tail == pieces[2..] && Fresh(tail)
    ensures quote == pieces[0].c && (quote == '\'' || quote == '\U{2019}')
  {
    quote, tail := pieces[0].c, pieces[2..];
    assert pieces[1..][1..] == tail;
  }

  lemma CutAtPossessive(piece: Piece, rest: seq<Piece>)
    requires piece.Placeholder? && Fresh(rest) && PossessivePieces(rest)
    ensures CutPossessives([piece] + rest) == [Placeholder(piece.body, [rest[0].c, 's'])] + CutPossessives(rest[2..])
  {
    var pieces := [piece] + rest;
    assert pieces[1..] == rest && pieces[3..] == rest[2..];
  }

  lemma NoCutAt(piece: Piece, rest: seq<Piece>)
    requires !(piece.Placeholder? && PossessivePieces(rest))
    ensures CutPossessives([piece] + rest) == [piece] + CutPossessives(rest)
  {
    assert ([piece] + rest)[1..] == rest;
  }

  /** The possessive pattern at a placeholder with a possessive behind it. */
  lemma PossessiveDropped(behind: bool, piece: Piece, quote: char, tail: seq<Piece>)
    requires piece.Placeholder? && PieceOk([], piece)
    requires var rest := [Plain(quote), Plain('s')] + tail; Fresh(rest) && PossessivePieces(rest)
    requires Sub(PossessiveIn(), Behind(behind, Core(piece) + [quote, 's']), Sealed(tail))
             == Sealed(CutPossessives(tail))
    ensures var rest := [Plain(quote), Plain('s')] + tail;
            Sub(PossessiveIn(), behind, Core(piece) + Sealed(rest)) == Sealed(CutPossessives([piece] + rest))
  {
    var rest := [Plain(quote), Plain('s')] + tail;
    var dropped := Placeholder(piece.body, [quote, 's']);
    PlaceholderTakes(behind, piece, rest);
    PossessiveParts(quote, tail);
    CutAtPossessive(piece, rest);
    assert rest[2..] == tail;
    PossessiveHit(behind, Core(piece), quote, Sealed(tail), dropped, CutPossessives(tail));
  }

  lemma {:induction false} PossessivesSealed(behind: bool, pieces: seq<Piece>)
    requires Fresh(pieces) && Clean(Source(pieces))
    ensures Sub(PossessiveIn(), behind, Sealed(pieces)) == Sealed(CutPossessives(pieces))
    decreases |pieces|
  {
    if pieces != [] {
      var piece, rest := pieces[0], pieces[1..];
      assert pieces == [piece] + rest;
      ConsSealed(piece, rest);
      CleanRest(SourceOf(piece), Source(rest));
      if piece.Placeholder? && PossessivePieces(rest) {
        var quote, tail := PossessiveSplit(rest);
        CleanTail(quote, tail);
        PossessivesSealed(Behind(behind, Core(piece) + [quote, 's']), tail);
        PossessiveDropped(behind, piece, quote, tail);
        assert Core(piece) + Trail(piece) == Core(piece);
      } else {
        NoPossessive(behind, pieces);
        PossessivesSealed(Behind(behind, Core(piece) + Trail(piece)), rest);
        NoCutAt(piece, rest);
        CutKeep(PossessiveIn(), behind, piece, Sealed(rest), CutPossessives(rest));
      }
    }
  }

  lemma CleanTail(quote: char, tail: seq<Piece>)
    requires Clean(Source([Plain(quote), Plain('s')] + tail))
    ensures Clean(Source(tail))
  {
    PossessiveParts(quote, tail);
    CleanRest([quote, 's'], Source(tail));
  }

  lemma PlaceholderTakes(behind: bool, piece: Piece, rest: seq<Piece>)
    requires piece.Placeholder? && PieceOk([], piece) && Fresh(rest)
    ensures PossessiveIn().take(behind, Core(piece) + Sealed(rest))
            == if PossessivePieces(rest) then |Core(piece)| + 2 else 0
    ensures Core(piece) != "" && Silent(Core(piece)[1..], Sealed(rest)) && Trail(piece) == ""
  {
    ReadCore([], piece, Sealed(rest));
    PossessiveTakes(behind, Core(piece), Sealed(rest));
    PossessiveInPieces(rest);
    CoreTail([], piece);
    SilentTail(Core(piece)[1..], Sealed(rest));
  }

  lemma NoPossessive(behind: bool, pieces: seq<Piece>)
    requires Fresh(pieces) && Clean(Source(pieces)) && pieces != []
    requires !(pieces[0].Placeholder? && PossessivePieces(pieces[1..]))
    ensures Quiet(PossessiveIn(), behind, Core(pieces[0]) + Trail(pieces[0]), Sealed(pieces[1..]))
  {
    var piece, rest := pieces[0], pieces[1..];
    assert Core(piece) + Trail(piece) == Core(piece);
    if piece.Placeholder? {
      PlaceholderTakes(behind, piece, rest);
      PossessiveKept(behind, Core(piece), Sealed(rest));
    } else {
      PlainSilent(pieces);
      SilentPossessive(behind, [piece.c], Sealed(rest));
    }
  }

  lemma {:induction false} FreshBasic(pieces: seq<Piece>)
    requires Fresh(pieces)
    ensures Basic(pieces)
  {
    if pieces != [] {
      FreshBasic(pieces[1..]);
    }
  }

  lemma PlainSilent(pieces: seq<Piece>)
    requires Fresh(pieces) && Clean(Source(pieces)) && pieces != [] && pieces[0].Plain?
    ensures Silent([pieces[0].c], Sealed(pieces[1..]))
  {
    FreshBasic(pieces);
    BasicWellMade([], pieces);
    PlainReads(0, [], pieces);
    NothingRestored([], pieces[1..]);
    assert [pieces[0].c][1..] == "";
  }

  lemma {:induction false} PossessivesSource(pieces: seq<Piece>)
    requires Fresh(pieces)
    ensures Source(CutPossessives(pieces)) == Source(pieces)
    decreases |pieces|
  {
    if pieces != [] {
      var piece, rest := pieces[0], pieces[1..];
      assert pieces == [piece] + rest;
      if piece.Placeholder? && PossessivePieces(rest) {
        var quote, tail := PossessiveSplit(rest);
        PossessiveParts(quote, tail);
        PossessivesSource(tail);
        CutAtPossessive(piece, rest);
        var dropped := Placeholder(piece.body, [quote, 's']);
        ConsSealed(dropped, CutPossessives(tail));
        assert SourceOf(piece) == "%" + piece.body;
        Associative("%" + piece.body, [quote, 's'], Source(tail));
      } else {
        PossessivesSource(rest);
        NoCutAt(piece, rest);
        ConsSealed(piece, CutPossessives(rest));
      }
    }
  }

  lemma BasicCons(piece: Piece, pieces: seq<Piece>)
    requires PieceOk([], piece) && !piece.Accel? && !piece.Name? && Basic(pieces)
    ensures Basic([piece] + pieces)
  {
    assert ([piece] + pieces)[1..] == pieces;
  }

  lemma {:induction false} PossessivesBasic(pieces: seq<Piece>)
    requires Fresh(pieces)
    ensures Basic(CutPossessives(pieces))
    decreases |pieces|
  {
    if pieces != [] {
      var piece, rest := pieces[0], pieces[1..];
      assert pieces == [piece] + rest;
      if piece.Placeholder? && PossessivePieces(rest) {
        var quote, tail := PossessiveSplit(rest);
        PossessivesBasic(tail);
        CutAtPossessive(piece, rest);
        BasicCons(Placeholder(piece.body, [quote, 's']), CutPossessives(tail));
      } else {
        PossessivesBasic(rest);
        NoCutAt(piece, rest);
        BasicCons(piece, CutPossessives(rest));
      }
    }
  }
}
