/** A placeholder that the line did not have (tools/translate_ts.py, 515-517 and 582-630):
    every term of word characters that starts with a lower-case n makes one, if a percent
    sign stands before its upper-case spelling. */
module SentinelMade {
  import opened SentinelRules
  import opened SentinelPieces
  import opened SentinelProtect
  import opened SentinelGlyphs
  import opened SentinelTerms
  import opened SentinelRoundTrip
  import opened SentinelPlaceholders

  predicate AllWord(text: string) {
    forall i | 0 <= i < |text| :: IsWord(text[i])
  }

  /** The characters of a text, each a piece. */
  function Plains(text: string): seq<Piece> {
    if text == "" then [] else [Plain(text[0])] + Plains(text[1..])
  }

  lemma {:induction false} PlainsShown(text: string)
    ensures Sealed(Plains(text)) == text && Source(Plains(text)) == text && |Plains(text)| == |text|
  {
    if text != "" {
      PlainsShown(text[1..]);
      assert Plains(text)[1..] == Plains(text[1..]);
      assert Core(Plain(text[0])) + Trail(Plain(text[0])) == [text[0]];
    }
  }

  lemma {:induction false} PlainsFrom(text: string, n: nat)
    requires n <= |text|
    ensures |Plains(text)| == |text| && Plains(text)[n..] == Plains(text[n..])
  {
    PlainsShown(text);
    if n > 0 {
      PlainsFrom(text[1..], n - 1);
      assert Plains(text)[1..] == Plains(text[1..]);
      assert Plains(text)[n..] == Plains(text[1..])[n - 1..];
      assert text[n..] == text[1..][n - 1..];
    } else {
      assert Plains(text)[0..] == Plains(text) && text[0..] == text;
    }
  }

  // ----- A percent sign before a word, cut into pieces ------------------------

  lemma {:induction false} PlainCut(text: string)
    requires '%' !in text
    ensures CutPlaceholders(text) == Plains(text)
  {
    if text != "" {
      PlainCut(text[1..]);
    }
  }

  lemma PercentCut(word: string)
    requires AllWord(word) && word != "" && word[0] != 'n' && !IsDigit(word[0])
    ensures CutPlaceholders("%" + word) == [Plain('%')] + Plains(word)
  {
    assert ("%" + word)[1..] == word;
    PercentHead(word);
    PlainCut(word);
  }

  /** Placeholders, and characters that no substitution before those of the terms concerns. */
  ghost predicate Ordinary(pieces: seq<Piece>) {
    forall piece | piece in pieces :: piece.Placeholder? || (piece.Plain? && IsOrdinary(piece.c))
  }

  ghost predicate IsOrdinary(c: char) {
    && c != '&' && c != '\'' && c != '\U{2019}' && (forall g | 0 <= g < 6 :: c != GlyphChar(g))
    && c != LineChar(0) && c != LineChar(1)
  }

  lemma {:induction false} OrdinaryStays(pieces: seq<Piece>)
    requires Ordinary(pieces)
    ensures CutPossessives(pieces) == pieces && CutAccels(pieces) == pieces
    ensures forall g | 0 <= g < 6 :: CutMarks(g, pieces) == pieces
    ensures forall l | 0 <= l < 2 :: CutLines(l, pieces) == pieces
  {
    if pieces != [] {
      OrdinaryStays(pieces[1..]);
      assert pieces == [pieces[0]] + pieces[1..];
      assert pieces[0] in pieces;
    }
  }

  lemma {:induction false} OrdinaryTo(terms: seq<string>, stage: nat, line: string)
    requires 1 <= stage <= 11 && Ordinary(CutPlaceholders(line))
    ensures PiecesTo(terms, stage, line) == CutPlaceholders(line)
    decreases stage
  {
    if stage > 1 {
      OrdinaryTo(terms, stage - 1, line);
      OrdinaryStays(CutPlaceholders(line));
    }
  }

  lemma {:induction false} PlainsChars(text: string, piece: Piece)
    requires piece in Plains(text)
    ensures piece.Plain? && piece.c in text
  {
    if piece != Plain(text[0]) {
      PlainsChars(text[1..], piece);
    }
  }

  lemma PercentOrdinary(word: string)
    requires AllWord(word)
    ensures Ordinary([Plain('%')] + Plains(word))
  {
    forall piece | piece in [Plain('%')] + Plains(word)
      ensures piece.Plain? && (piece.c == '%' || IsWord(piece.c))
    {
      if piece != Plain('%') {
        PlainsChars(word, piece);
      }
    }
  }

  // ----- What a term does there -----------------------------------------------

  /** Behind a word character no term starts. */
  lemma {:induction false} WordStays(index: nat, term: string, text: string)
    requires AllWord(text)
    ensures CutNames(index, term, true, Plains(text)) == Plains(text)
  {
    if text != "" {
      WordStays(index, term, text[1..]);
      assert Plains(text)[1..] == Plains(text[1..]);
      assert Core(Plain(text[0])) + Trail(Plain(text[0])) == [text[0]];
    }
  }

  lemma {:induction false} SpelledSame(term: string, text: string)
    requires |term| == |text|
    ensures SpelledPieces(term, Plains(text)) <==> UpperAll(term) == UpperAll(text)
  {
    if term != "" {
      SpelledSame(term[1..], text[1..]);
      assert Plains(text)[1..] == Plains(text[1..]);
      assert UpperAll(term)[1..] == UpperAll(term[1..]) && UpperAll(text)[1..] == UpperAll(text[1..]);
    }
  }

  lemma {:induction false} SpelledPlains(term: string, text: string, n: nat)
    requires |term| == n <= |text| && SpelledPieces(term, Plains(text))
    ensures SpelledPieces(term, Plains(text[..n]))
  {
    if term != "" {
      assert Plains(text)[1..] == Plains(text[1..]);
      SpelledPlains(term[1..], text[1..], n - 1);
      assert text[..n][1..] == text[1..][..n - 1];
      assert Plains(text[..n])[1..] == Plains(text[..n][1..]);
    }
  }

  /** At the start of a word a term is found exactly if it is spelled by the whole word. */
  lemma NamedIff(term: string, text: string)
    requires AllWord(text) && term != ""
    ensures NameAt(term, false, Plains(text)) <==> UpperAll(term) == UpperAll(text)
  {
    PlainsShown(text);
    var n := |term|;
    if n <= |text| {
      PlainsFrom(text, n);
      PlainsShown(text[n..]);
      if n < |text| {
        assert text[n..][0] == text[n];
      } else {
        assert text[n..] == "";
        SpelledSame(term, text);
      }
    }
  }

  lemma WordNamed(index: nat, term: string, text: string)
    requires AllWord(text) && term != "" && UpperAll(term) == UpperAll(text)
    ensures CutNames(index, term, false, Plains(text)) == [Name(index, text)]
  {
    NamedIff(term, text);
    PlainsShown(text);
    assert Plains(text)[..|term|] == Plains(text) && Plains(text)[|term|..] == [];
  }

  lemma WordNotNamed(index: nat, term: string, text: string)
    requires AllWord(text) && term != "" && UpperAll(term) != UpperAll(text)
    ensures CutNames(index, term, false, Plains(text)) == Plains(text)
  {
    NamedIff(term, text);
    if text != "" {
      WordStays(index, term, text[1..]);
      assert Plains(text)[1..] == Plains(text[1..]);
      assert Core(Plain(text[0])) + Trail(Plain(text[0])) == [text[0]];
    }
  }

  lemma PercentFirst(index: nat, term: string, rest: seq<Piece>)
    requires term != "" && Upper(term[0]) != '%'
    ensures CutNames(index, term, false, [Plain('%')] + rest) == [Plain('%')] + CutNames(index, term, false, rest)
  {
    assert ([Plain('%')] + rest)[1..] == rest;
    assert Core(Plain('%')) + Trail(Plain('%')) == "%";
  }

  lemma NameStays(index: nat, term: string, name: Piece)
    requires term != "" && name.Name?
    ensures CutNames(index, term, false, [name]) == [name]
  {
    assert [name][1..] == [];
  }

  /** The pieces of "%" and a word that term k spells, after the first so many terms. */
  function WordPieces(word: string, k: nat, n: nat): seq<Piece> {
    [Plain('%')] + if n <= k then Plains(word) else [Name(k, word)]
  }

  lemma OneMoreTerm(terms: seq<string>, word: string, k: nat, n: nat)
    requires k < |terms| && n < |terms| && AllWord(word) && TermOk(terms[n])
    requires n < k ==> UpperAll(terms[n]) != UpperAll(word)
    requires n == k ==> UpperAll(terms[n]) == UpperAll(word)
    ensures CutNames(n, terms[n], false, WordPieces(word, k, n)) == WordPieces(word, k, n + 1)
  {
    var term := terms[n];
    assert term[0] in term;
    PercentFirst(n, term, if n <= k then Plains(word) else [Name(k, word)]);
    if n < k {
      WordNotNamed(n, term, word);
    } else if n == k {
      WordNamed(n, term, word);
    } else {
      NameStays(n, term, Name(k, word));
    }
  }

  /** Term k is the first that is spelled by the word. */
  ghost predicate FirstSpelled(terms: seq<string>, k: nat, word: string) {
    && k < |terms| && UpperAll(terms[k]) == UpperAll(word)
    && forall n | 0 <= n < k :: UpperAll(terms[n]) != UpperAll(word)
  }

  lemma WordPiecesNext(terms: seq<string>, word: string, k: nat, n: nat, line: string)
    requires TableOk(terms) && FirstSpelled(terms, k, word) && n < |terms| && AllWord(word)
    requires PiecesTo(terms, 11 + n, line) == WordPieces(word, k, n)
    ensures PiecesTo(terms, 12 + n, line) == WordPieces(word, k, n + 1)
  {
    OneMoreTerm(terms, word, k, n);
    NextTerm(terms, n, line);
  }

  /** After the first so many terms the word is still plain, or the name of term k. */
  ghost predicate Replaced(terms: seq<string>, word: string, k: nat, n: nat, line: string)
    requires n <= |terms|
  {
    PiecesTo(terms, 11 + n, line) == WordPieces(word, k, n)
  }

  lemma WordReplaced(terms: seq<string>, word: string, k: nat, n: nat, line: string)
    requires TableOk(terms) && FirstSpelled(terms, k, word) && n < |terms| && AllWord(word)
    requires Replaced(terms, word, k, n, line)
    ensures Replaced(terms, word, k, n + 1, line)
  {
    WordPiecesNext(terms, word, k, n, line);
  }

  lemma {:induction false} AllReplaced(terms: seq<string>, word: string, k: nat, n: nat, line: string)
    requires TableOk(terms) && FirstSpelled(terms, k, word) && n <= |terms| && AllWord(word)
    requires Replaced(terms, word, k, 0, line)
    ensures Replaced(terms, word, k, n, line)
    decreases n
  {
    if n > 0 {
      var m := n - 1;
      AllReplaced(terms, word, k, m, line);
      WordReplaced(terms, word, k, m, line);
    }
  }

  lemma WordUncut(terms: seq<string>, word: string, line: string)
    requires AllWord(word) && word != "" && word[0] != 'n' && !IsDigit(word[0]) && line == "%" + word
    ensures PiecesTo(terms, 11, line) == [Plain('%')] + Plains(word)
  {
    PercentCut(word);
    PercentOrdinary(word);
    OrdinaryTo(terms, 11, line);
  }

  lemma WordPiecesTo(terms: seq<string>, word: string, k: nat, line: string)
    requires TableOk(terms) && FirstSpelled(terms, k, word) && AllWord(word)
    requires PiecesTo(terms, 11, line) == WordPieces(word, k, 0)
    ensures PiecesTo(terms, 11 + |terms|, line) == WordPieces(word, k, |terms|)
  {
    AllReplaced(terms, word, k, |terms|, line);
  }

  lemma PercentClean(word: string)
    requires Clean(word)
    ensures Clean("%" + word)
  {
    assert ("%" + word)[1..] == word;
  }

  /** A percent sign before a word that a term spells comes back before the term. */
  lemma WordRestored(terms: seq<string>, k: nat, word: string)
    requires TableOk(terms) && FirstSpelled(terms, k, word) && Clean(word)
    requires AllWord(word) && word != "" && word[0] != 'n' && !IsDigit(word[0])
    ensures RestoreSegment(terms, ProtectSegment(terms, "%" + word)) == "%" + terms[k]
  {
    PercentClean(word);
    WordUncut(terms, word, "%" + word);
    WordPiecesTo(terms, word, k, "%" + word);
    PercentCanonical(terms, k, word);
    PiecesRestored(terms, "%" + word, WordPieces(word, k, |terms|));
  }

  lemma PiecesRestored(terms: seq<string>, line: string, pieces: seq<Piece>)
    requires TableOk(terms) && Clean(line) && PiecesTo(terms, 11 + |terms|, line) == pieces
    ensures RestoreSegment(terms, ProtectSegment(terms, line)) == Canonical(terms, pieces)
  {
    RoundTrip(terms, line);
  }

  lemma PercentCanonical(terms: seq<string>, k: nat, word: string)
    requires k < |terms|
    ensures Canonical(terms, [Plain('%'), Name(k, word)]) == "%" + terms[k]
  {
    var pieces := [Plain('%'), Name(k, word)];
    assert pieces[1..] == [Name(k, word)] && pieces[1..][1..] == [];
    assert Canonical(terms, pieces[1..]) == terms[k] + "";
  }

  lemma NoPlaceholders(word: string)
    requires AllWord(word) && word != "" && word[0] != 'n' && !IsDigit(word[0])
    ensures PlaceholdersOf("%" + word) == []
  {
    assert ("%" + word)[1..] == word;
    PercentHead(word);
    NoPercent(word, "");
    assert word + "" == word;
  }

  /** For every table: a term that starts with a lower-case n, behind a percent sign and in
      upper case, is a line without placeholders that comes back with one. */
  lemma TermMakesPlaceholder(terms: seq<string>, k: nat, word: string)
    requires TableOk(terms) && FirstSpelled(terms, k, word) && Clean(word)
    requires AllWord(word) && word != "" && word[0] == 'N' && terms[k][0] == 'n'
    ensures var back := RestoreSegment(terms, ProtectSegment(terms, "%" + word));
            && back == "%" + terms[k]
            && PlaceholdersOf("%" + word) == [] && PlaceholdersOf(back) == ["%n"]
  {
    WordRestored(terms, k, word);
    NoPlaceholders(word);
    assert '%' !in terms[k];
    PercentTerm(terms[k], "");
    assert terms[k] + "" == terms[k];
  }

  lemma {:induction false} FirstOf(terms: seq<string>, term: string) returns (k: nat)
    requires term in terms
    ensures k < |terms| && terms[k] == term && forall n | 0 <= n < k :: terms[n] != term
  {
    if terms[0] == term {
      k := 0;
    } else {
      assert term in terms[1..];
      k := FirstOf(terms[1..], term);
      k := k + 1;
    }
  }

  lemma NtfsUpper(word: string)
    requires word == "NTFS"
    ensures AllWord(word) && UpperAll("ntfs") == word == UpperAll(word)
  {
    var term := "ntfs";
    UpperAllAt(term);
    UpperAllAt(word);
  }

  /** The term "ntfs" does, in every table that holds it and spells no other term so:
      "%NTFS" holds no placeholder, but what comes back of it does. */
  lemma NtfsMakesPlaceholder(terms: seq<string>)
    requires TableOk(terms) && "ntfs" in terms
    requires forall term | term in terms && UpperAll(term) == "NTFS" :: term == "ntfs"
    ensures var back := RestoreSegment(terms, ProtectSegment(terms, "%NTFS"));
            back == "%ntfs" && PlaceholdersOf("%NTFS") == [] && PlaceholdersOf(back) == ["%n"]
  {
    var term, word := "ntfs", "NTFS";
    var k := FirstNtfs(terms, term, word);
    TermMakesPlaceholder(terms, k, word);
    BehindPercent(term, word);
  }

  lemma FirstNtfs(terms: seq<string>, term: string, word: string) returns (k: nat)
    requires TableOk(terms) && term in terms && term == "ntfs" && word == "NTFS"
    requires forall other | other in terms && UpperAll(other) == word :: other == term
    ensures FirstSpelled(terms, k, word) && terms[k] == term && AllWord(word) && Clean(word)
  {
    k := FirstOf(terms, term);
    NtfsUpper(word);
    assert TermOk(terms[k]);
  }

  lemma BehindPercent(term: string, word: string)
    requires term == "ntfs" && word == "NTFS"
    ensures "%" + word == "%NTFS" && "%" + term == "%ntfs"
  {
  }
}
