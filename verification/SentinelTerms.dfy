/** The term substitutions of protect_segment (tools/translate_ts.py, 607-609): whole
    words in any case, never across a token. */
module SentinelTerms {
  import opened SentinelRules
  import opened SentinelWords
  import opened SentinelPieces
  import opened SentinelRestore
  import opened SentinelProtect

  /** A term spelled by plain characters in front. */
  predicate SpelledPieces(term: string, pieces: seq<Piece>) {
    term == ""
    || (&& pieces != [] && pieces[0].Plain? && Upper(term[0]) == Upper(pieces[0].c)
        && SpelledPieces(term[1..], pieces[1..]))
  }

  lemma {:induction false} SpelledCount(term: string, pieces: seq<Piece>)
    requires SpelledPieces(term, pieces)
    ensures |term| <= |pieces|
  {
    if term != "" {
      SpelledCount(term[1..], pieces[1..]);
    }
  }

  predicate NameAt(term: string, behind: bool, pieces: seq<Piece>) {
    && !behind && term != "" && |term| <= |pieces| && SpelledPieces(term, pieces)
    && FollowsTerm(Sealed(pieces[|term|..]))
  }

  function CutNames(index: nat, term: string, behind: bool, pieces: seq<Piece>): seq<Piece>
    decreases |pieces|
  {
    if pieces == [] then []
    else if NameAt(term, behind, pieces) then
      var spelled := Source(pieces[..|term|]);
      [Name(index, spelled)] + CutNames(index, term, Behind(behind, spelled), pieces[|term|..])
    else
      [pieces[0]] + CutNames(index, term, Behind(behind, Core(pieces[0]) + Trail(pieces[0])), pieces[1..])
  }

  // ----- Spelled by plain characters ------------------------------------------

  lemma {:induction false} SourcePlus(a: seq<Piece>, b: seq<Piece>)
    ensures Source(a + b) == Source(a) + Source(b)
  {
    if a == [] {
      assert a + b == b;
    } else {
      assert (a + b)[1..] == a[1..] + b;
      SourcePlus(a[1..], b);
      Associative(SourceOf(a[0]), Source(a[1..]), Source(b));
    }
  }

  lemma {:induction false} SealedPlus(a: seq<Piece>, b: seq<Piece>)
    ensures Sealed(a + b) == Sealed(a) + Sealed(b)
  {
    if a == [] {
      assert a + b == b;
    } else {
      assert (a + b)[1..] == a[1..] + b;
      SealedPlus(a[1..], b);
      Associative(Core(a[0]) + Trail(a[0]), Sealed(a[1..]), Sealed(b));
    }
  }

  /** The spelling of a term. */
  lemma {:induction false} SpellingOf(term: string, pieces: seq<Piece>)
    requires SpelledPieces(term, pieces) && |pieces| == |term|
    ensures Sealed(pieces) == Source(pieces) && |Source(pieces)| == |term| && SpelledAt(term, Source(pieces))
  {
    if term != "" {
      SpellingOf(term[1..], pieces[1..]);
      assert Source(pieces) == [pieces[0].c] + Source(pieces[1..]);
    }
  }

  lemma {:induction false} SpelledFront(term: string, pieces: seq<Piece>)
    requires SpelledPieces(term, pieces) && |term| <= |pieces|
    ensures SpelledPieces(term, pieces[..|term|])
  {
    if term != "" {
      SpelledFront(term[1..], pieces[1..]);
      assert pieces[..|term|][1..] == pieces[1..][..|term| - 1];
    }
  }

  /** A spelled term, and what is behind it. */
  lemma SpelledSplit(term: string, pieces: seq<Piece>)
    requires SpelledPieces(term, pieces) && |term| <= |pieces|
    ensures var spelled := Source(pieces[..|term|]);
            && |spelled| == |term| && SpelledAt(term, spelled)
            && Sealed(pieces) == spelled + Sealed(pieces[|term|..])
            && Source(pieces) == spelled + Source(pieces[|term|..])
  {
    var front, tail := pieces[..|term|], pieces[|term|..];
    assert pieces == front + tail;
    SpelledFront(term, pieces);
    SpellingOf(term, front);
    SealedPlus(front, tail);
    SourcePlus(front, tail);
  }

  lemma {:induction false} SpelledLonger(term: string, text: string, more: string)
    requires SpelledAt(term, text)
    ensures SpelledAt(term, text + more)
  {
    if term != "" {
      assert (text + more)[1..] == text[1..] + more;
      SpelledLonger(term[1..], text[1..], more);
    }
  }

  lemma {:induction false} SpelledChars(term: string, text: string)
    requires SpelledAt(term, text)
    ensures |term| <= |text| && forall i | 0 <= i < |term| :: Upper(term[i]) == Upper(text[i])
  {
    if term != "" {
      SpelledChars(term[1..], text[1..]);
      assert forall i | 1 <= i < |term| :: term[i] == term[1..][i - 1] && text[i] == text[1..][i - 1];
    }
  }

  /** A term without sentinels that ends before a boundary does not touch a token. */
  lemma TermMeetsNoToken(term: string, core: string, rest: string)
    requires term != "" && SpelledAt(term, core + rest) && Clean(UpperAll(term))
    requires Read(core).1 == |core| && !Read(core).0.Nothing?
    ensures |term| < |core| && !FollowsTerm((core + rest)[|term|..])
  {
    SpelledChars(term, core + rest);
    ReadChars(core);
    UpperAllAt(term);
    if |core| <= |term| {
      assert forall i | 0 <= i < |core| :: UpperAll(term)[i] == core[i] by {
        assert forall i | 0 <= i < |core| :: (core + rest)[i] == core[i];
      }
      assert core[..|core|] == core;
      assert UpperAll(term)[..|core|] == core;
      ReadFront(core, UpperAll(term));
    } else {
      assert (core + rest)[|term|..][0] == core[|term|];
    }
  }

  /** A term spelled in the protected text is spelled by plain characters. */
  lemma {:induction false} SpelledIsPlain(terms: seq<string>, term: string, pieces: seq<Piece>)
    requires WellMade(terms, pieces) && Clean(UpperAll(term))
    requires SpelledAt(term, Sealed(pieces)) && |term| <= |Sealed(pieces)| && FollowsTerm(Sealed(pieces)[|term|..])
    ensures SpelledPieces(term, pieces)
    decreases |term|
  {
    if term != "" {
      SealedFront(terms, pieces);
      var piece, rest := pieces[0], Trail(pieces[0]) + Sealed(pieces[1..]);
      if piece.Plain? {
        assert UpperAll(term)[1..] == UpperAll(term[1..]);
        assert Sealed(pieces)[|term|..] == Sealed(pieces[1..])[|term| - 1..];
        SpelledIsPlain(terms, term[1..], pieces[1..]);
      } else {
        Associative(Core(piece), Trail(piece), Sealed(pieces[1..]));
        ReadCore(terms, piece, "");
        assert Core(piece) + "" == Core(piece);
        TermMeetsNoToken(term, Core(piece), rest);
      }
    }
  }

  /** The pattern of a term matches the protected text exactly where plain characters
      spell it. */
  lemma TermInPieces(terms: seq<string>, term: string, behind: bool, pieces: seq<Piece>)
    requires WellMade(terms, pieces) && TermOk(term)
    ensures TermAt(term, behind, Sealed(pieces)) <==> NameAt(term, behind, pieces)
  {
    if TermAt(term, behind, Sealed(pieces)) {
      SpelledIsPlain(terms, term, pieces);
      SpelledCount(term, pieces);
      SpelledSplit(term, pieces);
      assert Sealed(pieces)[|term|..] == Sealed(pieces[|term|..]);
    }
    if NameAt(term, behind, pieces) {
      SpelledSplit(term, pieces);
      SpelledLonger(term, Source(pieces[..|term|]), Sealed(pieces[|term|..]));
      assert Sealed(pieces)[|term|..] == Sealed(pieces[|term|..]);
    }
  }

  // ----- No match inside tokens -----------------------------------------------

  lemma TermTakes(index: nat, term: string, behind: bool, text: string)
    ensures TermIn(index, term).take(behind, text) == if TermAt(term, behind, text) then |term| else 0
  {
  }

  lemma {:induction false} QuietInWord(index: nat, term: string, word: string, rest: string)
    requires forall i | 0 <= i < |word| :: IsWord(word[i])
    ensures Quiet(TermIn(index, term), true, word, rest)
    decreases |word|
  {
    if word != "" {
      TermTakes(index, term, true, word + rest);
      QuietInWord(index, term, word[1..], rest);
    }
  }

  lemma {:induction false} QuietInSpaces(index: nat, term: string, behind: bool, n: nat, rest: string)
    requires TermOk(term)
    ensures Quiet(TermIn(index, term), behind, Repeat(' ', n), rest)
  {
    if n > 0 {
      assert Repeat(' ', n)[1..] == Repeat(' ', n - 1);
      TermTakes(index, term, behind, Repeat(' ', n) + rest);
      QuietInSpaces(index, term, false, n - 1, rest);
    }
  }

  lemma {:induction false} QuietPlus(rule: Rule, behind: bool, front: string, more: string, rest: string)
    requires Quiet(rule, behind, front, more + rest) && Quiet(rule, Behind(behind, front), more, rest)
    ensures Quiet(rule, behind, front + more, rest)
    decreases |front|
  {
    if front == "" {
      assert front + more == more;
    } else {
      assert (front + more)[1..] == front[1..] + more;
      Associative(front, more, rest);
      QuietPlus(rule, IsWord(front[0]), front[1..], more, rest);
    }
  }

  lemma TokenQuiet(index: nat, term: string, behind: bool, core: string, n: nat, rest: string)
    requires TermOk(term) && core != "" && forall i | 0 <= i < |core| :: IsWord(core[i])
    requires !TermAt(term, behind, core + (Repeat(' ', n) + rest))
    ensures Quiet(TermIn(index, term), behind, core + Repeat(' ', n), rest)
  {
    var spaces := Repeat(' ', n);
    TermTakes(index, term, behind, core + (spaces + rest));
    QuietInWord(index, term, core[1..], spaces + rest);
    QuietInSpaces(index, term, Behind(behind, core), n, rest);
    QuietPlus(TermIn(index, term), behind, core, spaces, rest);
  }

  lemma NoNameQuiet(terms: seq<string>, index: nat, term: string, behind: bool, pieces: seq<Piece>)
    requires WellMade(terms, pieces) && TermOk(term) && pieces != [] && !NameAt(term, behind, pieces)
    ensures Quiet(TermIn(index, term), behind, Core(pieces[0]) + Trail(pieces[0]), Sealed(pieces[1..]))
  {
    var piece, rest := pieces[0], Sealed(pieces[1..]);
    var core := Core(piece);
    TermInPieces(terms, term, behind, pieces);
    Associative(core, Trail(piece), rest);
    if piece.Plain? {
      TermTakes(index, term, behind, core + Trail(piece) + rest);
      assert core + Trail(piece) == [piece.c];
      assert [piece.c][1..] == "";
    } else {
      ReadCore(terms, piece, "");
      assert core + "" == core;
      ReadChars(core);
      CoreTail(terms, piece);
      TokenQuiet(index, term, behind, core, if piece.Accel? then piece.spaces + 1 else 0, rest);
    }
  }

  // ----- The substitution of one term -----------------------------------------

  lemma NameHit(index: nat, term: string, behind: bool, spelled: string, rest: string, pieces: seq<Piece>)
    requires |spelled| == |term| && term != "" && TermAt(term, behind, spelled + rest)
    requires Sub(TermIn(index, term), Behind(behind, spelled), rest) == Sealed(pieces)
    ensures Sub(TermIn(index, term), behind, spelled + rest) == Sealed([Name(index, spelled)] + pieces)
  {
    TermTakes(index, term, behind, spelled + rest);
    CutHit(TermIn(index, term), behind, spelled, rest, Name(index, spelled), pieces);
  }

  lemma {:induction false} WellMadeRest(terms: seq<string>, pieces: seq<Piece>, n: nat)
    requires WellMade(terms, pieces) && n <= |pieces|
    ensures WellMade(terms, pieces[n..])
  {
    if n == 0 {
      assert pieces[0..] == pieces;
    } else {
      WellMadeRest(terms, pieces[1..], n - 1);
      assert pieces[1..][n - 1..] == pieces[n..];
    }
  }

  lemma {:induction false} NamesSealed(terms: seq<string>, index: nat, term: string, behind: bool, pieces: seq<Piece>)
    requires WellMade(terms, pieces) && TermOk(term)
    ensures Sub(TermIn(index, term), behind, Sealed(pieces)) == Sealed(CutNames(index, term, behind, pieces))
    decreases |pieces|
  {
    if pieces != [] {
      if NameAt(term, behind, pieces) {
        var spelled, rest := Source(pieces[..|term|]), pieces[|term|..];
        SpelledSplit(term, pieces);
        TermInPieces(terms, term, behind, pieces);
        WellMadeRest(terms, pieces, |term|);
        NamesSealed(terms, index, term, Behind(behind, spelled), rest);
        NameHit(index, term, behind, spelled, Sealed(rest), CutNames(index, term, Behind(behind, spelled), rest));
      } else {
        var piece, rest := pieces[0], pieces[1..];
        var after := Behind(behind, Core(piece) + Trail(piece));
        NoNameQuiet(terms, index, term, behind, pieces);
        NamesSealed(terms, index, term, after, rest);
        CutKeep(TermIn(index, term), behind, piece, Sealed(rest), CutNames(index, term, after, rest));
      }
    }
  }

  lemma {:induction false} NamesSource(index: nat, term: string, behind: bool, pieces: seq<Piece>)
    ensures Source(CutNames(index, term, behind, pieces)) == Source(pieces)
    decreases |pieces|
  {
    if pieces != [] {
      if NameAt(term, behind, pieces) {
        var spelled, rest := Source(pieces[..|term|]), pieces[|term|..];
        SpelledSplit(term, pieces);
        NamesSource(index, term, Behind(behind, spelled), rest);
        ConsSealed(Name(index, spelled), CutNames(index, term, Behind(behind, spelled), rest));
      } else {
        var after := Behind(behind, Core(pieces[0]) + Trail(pieces[0]));
        NamesSource(index, term, after, pieces[1..]);
        ConsSealed(pieces[0], CutNames(index, term, after, pieces[1..]));
      }
    }
  }

  lemma WellMadeCons(terms: seq<string>, piece: Piece, pieces: seq<Piece>)
    requires PieceOk(terms, piece) && WellMade(terms, pieces)
    requires pieces != [] ==> PairOk(piece, pieces[0])
    ensures WellMade(terms, [piece] + pieces)
  {
    assert ([piece] + pieces)[1..] == pieces;
  }

  /** What may stand first after the substitution. */
  ghost predicate HeadAfter(behind: bool, pieces: seq<Piece>, cut: seq<Piece>) {
    && (pieces == [] <==> cut == [])
    && (cut != [] ==> cut[0] == pieces[0] || (cut[0].Name? && !behind && pieces[0].Plain?))
  }

  /** Only a mnemonic or a character that is no word character lets a term follow. */
  lemma NotBehind(terms: seq<string>, behind: bool, piece: Piece)
    requires PieceOk(terms, piece)
    ensures piece.Accel? || (piece.Plain? && !IsWord(piece.c)) || Behind(behind, Core(piece) + Trail(piece))
  {
    if !piece.Plain? && !piece.Accel? {
      ReadCore(terms, piece, "");
      assert Core(piece) + "" == Core(piece);
      ReadChars(Core(piece));
      assert Core(piece) + Trail(piece) == Core(piece);
    }
  }

  /** The spelling of a term ends in a word character. */
  lemma SpellingEnds(term: string, spelled: string, behind: bool)
    requires TermOk(term) && SpelledAt(term, spelled) && |spelled| == |term|
    ensures Behind(behind, spelled)
  {
    SpelledChars(term, spelled);
    assert Upper(term[|term| - 1]) == Upper(spelled[|term| - 1]);
  }

  lemma {:induction false} NamesWellMade(terms: seq<string>, index: nat, behind: bool, pieces: seq<Piece>)
    requires WellMade(terms, pieces) && index < |terms| && TermOk(terms[index]) && Plain('&') !in pieces
    ensures var cut := CutNames(index, terms[index], behind, pieces);
            WellMade(terms, cut) && Plain('&') !in cut && HeadAfter(behind, pieces, cut)
    decreases |pieces|
  {
    var term := terms[index];
    if pieces != [] {
      if NameAt(term, behind, pieces) {
        var spelled, rest := Source(pieces[..|term|]), pieces[|term|..];
        SpelledSplit(term, pieces);
        WellMadeRest(terms, pieces, |term|);
        SpellingEnds(term, spelled, behind);
        NamesWellMade(terms, index, true, rest);
        if rest != [] {
          SealedFront(terms, rest);
        }
        WellMadeCons(terms, Name(index, spelled), CutNames(index, term, true, rest));
      } else {
        var piece, rest := pieces[0], pieces[1..];
        var after := Behind(behind, Core(piece) + Trail(piece));
        NamesWellMade(terms, index, after, rest);
        NotBehind(terms, behind, piece);
        WellMadeCons(terms, piece, CutNames(index, term, after, rest));
      }
    }
  }
}
