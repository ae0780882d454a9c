/** restore_segment (tools/translate_ts.py, 613-630) brings the pieces of a protected
    line back, one substitution at a time. */
module SentinelRestore {
  import opened SentinelRules
  import opened SentinelWords
  import opened SentinelPieces

  /** What the substitution of a stage looks for; spaces (stage 11) are no sentinel. */
  predicate Wanted(stage: nat, sentinel: Sentinel) {
    match sentinel
    case Nothing => false
    case Digits(_) => stage == 0
    case Plural => stage == 1
    case Glyph(glyph) => glyph < 6 && stage == 2 + glyph
    case Run(line, _) => line < 2 && stage == 8 + line
    case Mnemonic => stage == 10
    case Term(index) => stage >= 12 && index == Decimal(stage - 11)
  }

  lemma GlyphTaken(glyph: nat, text: string)
    requires glyph < 6
    ensures GlyphToken(glyph) <= text <==> Read(text).0 == Glyph(glyph)
    ensures Read(text).0 == Glyph(glyph) ==> Read(text).1 == |GlyphToken(glyph)|
  {
  }

  lemma FixedTaken(text: string)
    ensures "PHNX" <= text <==> Read(text).0.Plural?
    ensures "GLAMX" <= text <==> Read(text).0.Mnemonic?
    ensures Read(text).0.Plural? ==> Read(text).1 == 4
    ensures Read(text).0.Mnemonic? ==> Read(text).1 == 5
  {
  }

  lemma TermTaken(index: nat, text: string)
    ensures TermToken(index) <= text <==> Read(text).0 == Term(Decimal(index + 1))
    ensures Read(text).0 == Term(Decimal(index + 1)) ==> Read(text).1 == |TermToken(index)|
  {
    var token := TermToken(index);
    if token <= text {
      ReadTerm(index, text[|token|..]);
      assert token + text[|token|..] == text;
    }
    if Read(text).0 == Term(Decimal(index + 1)) {
      TermRead(index, text, token);
    }
  }

  lemma TermRead(index: nat, text: string, token: string)
    requires Read(text).0 == Term(Decimal(index + 1)) && token == TermToken(index)
    ensures token <= text && Read(text).1 == |token|
  {
    ReadLetters(text);
    NumberTail(text, 2);
    var n := Read(text).1;
    assert text[..n] == [text[0], text[1]] + text[2..n];
    assert token == ['T', 'R'] + (Decimal(index + 1) + "X");
  }

  lemma LiteralTakes(token: string, replacement: string, behind: bool, text: string)
    ensures Literal(token, replacement).take(behind, text) == if token <= text then |token| else 0
  {
  }

  lemma DigitsTake(behind: bool, text: string)
    ensures DigitsOut().take(behind, text) == if Read(text).0.Digits? then Read(text).1 else 0
  {
  }

  lemma RunTakes(line: nat, behind: bool, text: string)
    ensures RunOut(line).take(behind, text)
            == if Read(text).0.Run? && Read(text).0.line == line then Read(text).1 else 0
  {
  }

  /** Every restoring substitution but that of the spaces takes whole sentinels of its
      own kind, and nothing else. */
  lemma OutTakes(stage: nat, terms: seq<string>, behind: bool, text: string)
    requires stage < 12 + |terms| && stage != 11
    ensures OutRule(terms, stage).take(behind, text) == if Wanted(stage, Read(text).0) then Read(text).1 else 0
  {
    if stage == 0 {
      DigitsTake(behind, text);
    } else if stage == 1 {
      FixedTaken(text);
      LiteralTakes("PHNX", "%n", behind, text);
    } else if stage < 8 {
      GlyphTaken(stage - 2, text);
      LiteralTakes(GlyphToken(stage - 2), [GlyphChar(stage - 2)], behind, text);
    } else if stage < 10 {
      ReadLetters(text);
      RunTakes(stage - 8, behind, text);
    } else if stage == 10 {
      FixedTaken(text);
      LiteralTakes("GLAMX", "&", behind, text);
    } else {
      TermTaken(stage - 12, text);
      LiteralTakes(TermToken(stage - 12), terms[stage - 12], behind, text);
    }
  }

  lemma DecimalInjective(a: nat, b: nat)
    ensures Decimal(a) == Decimal(b) <==> a == b
  {
    DecimalRoundTrip(a);
    DecimalRoundTrip(b);
  }

  lemma WantedIsStage(stage: nat, terms: seq<string>, piece: Piece)
    requires PieceOk(terms, piece) && !piece.Plain?
    ensures Wanted(stage, Code(piece)) <==> Stage(piece) == stage
  {
    if piece.Name? && stage >= 12 {
      DecimalInjective(piece.index + 1, stage - 11);
    }
  }

  // ----- Quiet fronts ---------------------------------------------------------

  lemma {:induction false} SilentQuiet(stage: nat, terms: seq<string>, behind: bool, front: string, rest: string)
    requires stage < 12 + |terms| && stage != 11 && Silent(front, rest)
    ensures Quiet(OutRule(terms, stage), behind, front, rest)
    decreases |front|
  {
    if front != "" {
      OutTakes(stage, terms, behind, front + rest);
      SilentQuiet(stage, terms, IsWord(front[0]), front[1..], rest);
    }
  }

  lemma {:induction false} NoMnemonicQuiet(terms: seq<string>, behind: bool, front: string, rest: string)
    requires '&' !in front
    ensures Quiet(OutRule(terms, 11), behind, front, rest)
    decreases |front|
  {
    if front != "" {
      NoMnemonicQuiet(terms, IsWord(front[0]), front[1..], rest);
    }
  }

  lemma {:induction false} RepeatChars(c: char, n: nat)
    ensures forall i | 0 <= i < n :: Repeat(c, n)[i] == c
  {
    if n > 0 {
      RepeatChars(c, n - 1);
    }
  }

  lemma {:induction false} DigitChars(digits: string)
    requires AllDigits(digits)
    ensures forall i | 0 <= i < |digits| :: IsDigit(digits[i])
  {
    if digits != "" {
      DigitChars(digits[1..]);
      assert forall i | 1 <= i < |digits| :: digits[i] == digits[1..][i - 1];
    }
  }

  /** Restored pieces but names hold no character that starts a sentinel, and do not
      start with a word character. */
  lemma RestoredChars(stage: nat, terms: seq<string>, piece: Piece)
    requires PieceOk(terms, piece) && !piece.Plain? && !piece.Name? && Stage(piece) < stage
    ensures var text := ShownOf(stage, terms, piece);
            && text != "" && !IsWord(text[0])
            && (forall i | 0 <= i < |text| :: text[i] !in "PGRT")
            && (!piece.Accel? ==> '&' !in text)
  {
    match piece
    case Placeholder(body, _) =>
      if body != "n" { DigitChars(body); }
    case Mark(_) =>
    case Line(line, count) => RepeatChars(LineChar(line), count);
    case Accel(spaces) => RepeatChars(' ', spaces + 1);
  }

  /** Pieces with a clean source that the substitutions meet. */
  ghost predicate Ready(terms: seq<string>, pieces: seq<Piece>) {
    TableOk(terms) && WellMade(terms, pieces) && Clean(Source(pieces))
  }

  lemma ReadyRest(terms: seq<string>, pieces: seq<Piece>)
    requires Ready(terms, pieces) && pieces != []
    ensures Ready(terms, pieces[1..])
  {
    CleanRest(SourceOf(pieces[0]), Source(pieces[1..]));
  }

  /** A rest of a sentinel that stands at the front of shown pieces consists of plain
      characters: it stands in the source as well. */
  lemma {:induction false} TailIsPlain(tail: string, stage: nat, terms: seq<string>, pieces: seq<Piece>)
    requires Tail(tail) && tail <= Shown(stage, terms, pieces)
    requires WellMade(terms, pieces) && (pieces != [] ==> !pieces[0].Name?)
    ensures tail <= Source(pieces)
    decreases |tail|
  {
    if tail != "" {
      var piece, rest := pieces[0], Shown(stage, terms, pieces[1..]);
      assert tail[0] == (ShownOf(stage, terms, piece) + rest)[0];
      if piece.Plain? {
        assert Shown(stage, terms, pieces)[1..] == rest;
        TailChars(tail);
        TailIsPlain(tail[1..], stage, terms, pieces[1..]);
        assert tail == [tail[0]] + tail[1..];
      } else if stage <= Stage(piece) {
        CoreTail(terms, piece);
        TokenIsNoTail(tail, Core(piece), Trail(piece) + rest);
      } else {
        RestoredChars(stage, terms, piece);
        TailChars(tail);
      }
    }
  }

  lemma TokenIsNoTail(tail: string, core: string, rest: string)
    requires tail != "" && tail <= core + rest && core != ""
    requires core[0] == 'P' || core[0] == 'G' || core[0] == 'T' || (core[0] == 'R' && |core| > 1 && core[1] == 'L')
    ensures !Tail(tail)
  {
    assert tail[0] == core[0];
    if |tail| > 1 && |core| > 1 {
      assert tail[1] == (core + rest)[1];
    }
  }

  /** A plain character starts no sentinel. */
  lemma PlainReads(stage: nat, terms: seq<string>, pieces: seq<Piece>)
    requires Ready(terms, pieces) && pieces != [] && pieces[0].Plain?
    ensures Read([pieces[0].c] + Shown(stage, terms, pieces[1..])).0.Nothing?
  {
    var c, rest := pieces[0].c, pieces[1..];
    var text := [c] + Shown(stage, terms, rest);
    if !Read(text).0.Nothing? {
      ReadTail(text);
      var n := Read(text).1;
      var tail := text[1..n];
      assert tail <= Shown(stage, terms, rest) by {
        assert text[1..] == Shown(stage, terms, rest);
        assert tail == text[1..][..n - 1];
      }
      ReadChars(text);
      TailIsPlain(tail, stage, terms, rest);
      assert text[..n] == [c] + tail;
      assert text[..n] <= [c] + Source(rest);
      ReadFront(text, [c] + Source(rest));
    }
  }

  // ----- One substitution -----------------------------------------------------

  lemma {:induction false} SilentPlus(front: string, more: string, rest: string)
    requires Silent(front, more + rest) && Silent(more, rest)
    ensures Silent(front + more, rest)
    decreases |front|
  {
    if front == "" {
      assert front + more == more;
    } else {
      assert (front + more)[1..] == front[1..] + more;
      assert front + more + rest == front + (more + rest);
      SilentPlus(front[1..], more, rest);
    }
  }

  lemma TrailSilent(piece: Piece, rest: string)
    ensures Silent(Trail(piece), rest)
  {
    if piece.Accel? {
      RepeatChars(' ', piece.spaces + 1);
    }
    SilentChars(Trail(piece), rest);
  }

  /** Behind the first character of a sealed piece no sentinel starts. */
  lemma SealedRestSilent(terms: seq<string>, piece: Piece, rest: string)
    requires PieceOk(terms, piece) && !piece.Plain?
    ensures Core(piece) != "" && Silent(Core(piece)[1..] + Trail(piece), rest)
  {
    CoreTail(terms, piece);
    TrailSilent(piece, rest);
    SilentTail(Core(piece)[1..], Trail(piece) + rest);
    SilentPlus(Core(piece)[1..], Trail(piece), rest);
  }

  lemma UnwantedQuiet(stage: nat, terms: seq<string>, behind: bool, core: string, trail: string, rest: string)
    requires stage < 12 + |terms| && stage != 11
    requires core != "" && Silent(core[1..] + trail, rest) && !Wanted(stage, Read(core + (trail + rest)).0)
    ensures Quiet(OutRule(terms, stage), behind, core + trail, rest)
  {
    var front := core + trail;
    assert front[1..] == core[1..] + trail && front + rest == core + (trail + rest);
    SilentQuiet(stage, terms, IsWord(front[0]), front[1..], rest);
    OutTakes(stage, terms, behind, front + rest);
  }

  /** A sealed piece of another kind stays. */
  lemma SealedStays(stage: nat, terms: seq<string>, behind: bool, piece: Piece, rest: string)
    requires stage < 12 + |terms| && stage != 11
    requires PieceOk(terms, piece) && !piece.Plain? && Stage(piece) != stage
    ensures Quiet(OutRule(terms, stage), behind, Core(piece) + Trail(piece), rest)
  {
    SealedRestSilent(terms, piece, rest);
    ReadCore(terms, piece, Trail(piece) + rest);
    WantedIsStage(stage, terms, piece);
    UnwantedQuiet(stage, terms, behind, Core(piece), Trail(piece), rest);
  }

  /** What a sealed piece is replaced by. */
  lemma DigitsBack(body: string)
    ensures |DigitsToken(body)| >= 3 && "%" + DigitsToken(body)[2..|DigitsToken(body)| - 1] == "%" + body
  {
    assert DigitsToken(body)[2..|DigitsToken(body)| - 1] == body;
  }

  lemma RunBack(line: nat, count: nat)
    ensures |RunToken(line, count)| >= 4 && Value(RunToken(line, count)[3..|RunToken(line, count)| - 1]) == count
  {
    DecimalRoundTrip(count);
    assert RunToken(line, count)[3..|RunToken(line, count)| - 1] == Decimal(count);
  }

  lemma PutBack(stage: nat, terms: seq<string>, piece: Piece)
    requires stage < 12 + |terms| && stage != 11
    requires PieceOk(terms, piece) && !piece.Plain? && Stage(piece) == stage
    ensures OutRule(terms, stage).put(Core(piece)) == CanonicalOf(terms, piece)
  {
    match piece
    case Placeholder(body, _) =>
      DigitsBack(body);
    case Mark(_) =>
    case Line(line, count) =>
      RunBack(line, count);
    case Accel(_) =>
    case Name(_, _) =>
  }

  lemma HitThenQuiet(rule: Rule, behind: bool, core: string, trail: string, rest: string)
    requires core != "" && rule.take(behind, core + (trail + rest)) == |core|
    requires Quiet(rule, Behind(behind, core), trail, rest)
    ensures Sub(rule, behind, core + trail + rest)
            == rule.put(core) + trail + Sub(rule, Behind(Behind(behind, core), trail), rest)
  {
    SubHit(rule, behind, core, trail + rest);
    SubQuiet(rule, Behind(behind, core), trail, rest);
    Associative(core, trail, rest);
    Associative(rule.put(core), trail, Sub(rule, Behind(Behind(behind, core), trail), rest));
  }

  lemma Associative(a: string, b: string, c: string)
    ensures a + b + c == a + (b + c)
  {
  }

  /** A sealed piece of the kind looked for is taken, and its trail stays. */
  lemma SealedReplaced(stage: nat, terms: seq<string>, behind: bool, piece: Piece, rest: string) returns (after: bool)
    requires stage < 12 + |terms| && stage != 11
    requires PieceOk(terms, piece) && !piece.Plain? && Stage(piece) == stage
    ensures Sub(OutRule(terms, stage), behind, Core(piece) + Trail(piece) + rest)
            == CanonicalOf(terms, piece) + Trail(piece) + Sub(OutRule(terms, stage), after, rest)
  {
    var core, trail := Core(piece), Trail(piece);
    ReadCore(terms, piece, trail + rest);
    CoreTail(terms, piece);
    WantedIsStage(stage, terms, piece);
    OutTakes(stage, terms, behind, core + (trail + rest));
    TrailSilent(piece, rest);
    SilentQuiet(stage, terms, Behind(behind, core), trail, rest);
    PutBack(stage, terms, piece);
    HitThenQuiet(OutRule(terms, stage), behind, core, trail, rest);
    after := Behind(Behind(behind, core), trail);
  }

  lemma {:induction false} RepeatRun(c: char, n: nat, rest: string)
    requires rest == "" || rest[0] != c
    ensures CharRun(c, Repeat(c, n) + rest) == n
  {
    if n == 0 {
      assert "" + rest == rest;
    } else {
      assert (Repeat(c, n) + rest)[1..] == Repeat(c, n - 1) + rest;
      RepeatRun(c, n - 1, rest);
    }
  }

  /** Whatever is shown behind a mnemonic does not start with a space. */
  lemma NoSpaceFirst(terms: seq<string>, pieces: seq<Piece>)
    requires WellMade(terms, pieces) && pieces != [] && pieces[0] != Plain(' ')
    ensures Shown(11, terms, pieces) != "" && Shown(11, terms, pieces)[0] != ' '
  {
    var piece := pieces[0];
    if piece.Plain? {
    } else if 11 <= Stage(piece) {
      CoreTail(terms, piece);
    } else {
      if piece.Line? { RepeatChars(LineChar(piece.line), piece.count); }
    }
  }

  lemma SpacesTaken(terms: seq<string>, behind: bool, spaces: nat, rest: string)
    requires rest == "" || rest[0] != ' '
    ensures var front := "&" + Repeat(' ', spaces + 1);
            Sub(SpacesOut(), behind, front + rest) == "&" + Sub(SpacesOut(), Behind(behind, front), rest)
  {
    var front := "&" + Repeat(' ', spaces + 1);
    assert (front + rest)[1..] == Repeat(' ', spaces + 1) + rest;
    RepeatRun(' ', spaces + 1, rest);
    SubHit(SpacesOut(), behind, front, rest);
  }

  lemma NoMnemonicShown(terms: seq<string>, piece: Piece)
    requires PieceOk(terms, piece) && !piece.Accel? && piece != Plain('&')
    ensures '&' !in ShownOf(11, terms, piece) && ShownOf(12, terms, piece) == ShownOf(11, terms, piece)
  {
    if piece.Plain? {
    } else if 11 <= Stage(piece) {
      CoreTail(terms, piece);
      TailChars(Core(piece)[1..]);
      assert forall i | 1 <= i < |Core(piece)| :: Core(piece)[i] == Core(piece)[1..][i - 1];
    } else {
      RestoredChars(11, terms, piece);
    }
  }

  /** The substitution that drops the spaces, at one piece. */
  lemma SpacesStep(terms: seq<string>, behind: bool, pieces: seq<Piece>) returns (after: bool)
    requires WellMade(terms, pieces) && pieces != [] && pieces[0] != Plain('&')
    ensures var rest := Shown(11, terms, pieces[1..]);
            Sub(SpacesOut(), behind, ShownOf(11, terms, pieces[0]) + rest)
            == ShownOf(12, terms, pieces[0]) + Sub(SpacesOut(), after, rest)
  {
    var piece, rest := pieces[0], Shown(11, terms, pieces[1..]);
    if piece.Accel? {
      if |pieces| > 1 {
        NoSpaceFirst(terms, pieces[1..]);
      }
      SpacesTaken(terms, behind, piece.spaces, rest);
      after := Behind(behind, "&" + Repeat(' ', piece.spaces + 1));
    } else {
      NoMnemonicShown(terms, piece);
      NoMnemonicQuiet(terms, behind, ShownOf(11, terms, piece), rest);
      SubQuiet(SpacesOut(), behind, ShownOf(11, terms, piece), rest);
      after := Behind(behind, ShownOf(11, terms, piece));
    }
  }

  /** Pieces that a stage does not concern hold no sentinel it could find. */
  lemma OtherSilent(stage: nat, terms: seq<string>, pieces: seq<Piece>)
    requires Ready(terms, pieces) && pieces != []
    requires pieces[0].Plain? || Stage(pieces[0]) < stage
    ensures Silent(ShownOf(stage, terms, pieces[0]), Shown(stage, terms, pieces[1..]))
  {
    var piece, rest := pieces[0], Shown(stage, terms, pieces[1..]);
    if piece.Plain? {
      PlainReads(stage, terms, pieces);
      assert ShownOf(stage, terms, piece) == [piece.c];
      assert Silent([piece.c][1..], rest);
    } else if piece.Name? {
      assert |pieces| > 1 ==> pieces[1].Plain? && rest[0] == pieces[1].c;
      SilentTerm(terms[piece.index], rest);
    } else {
      RestoredChars(stage, terms, piece);
      SilentChars(ShownOf(stage, terms, piece), rest);
    }
  }

  /** One substitution at one piece. */
  lemma PieceStep(stage: nat, terms: seq<string>, behind: bool, pieces: seq<Piece>) returns (after: bool)
    requires stage < 12 + |terms| && Ready(terms, pieces) && pieces != [] && pieces[0] != Plain('&')
    ensures var rest := Shown(stage, terms, pieces[1..]);
            Sub(OutRule(terms, stage), behind, ShownOf(stage, terms, pieces[0]) + rest)
            == ShownOf(stage + 1, terms, pieces[0]) + Sub(OutRule(terms, stage), after, rest)
  {
    var piece, rest := pieces[0], Shown(stage, terms, pieces[1..]);
    var front := ShownOf(stage, terms, piece);
    if stage == 11 {
      after := SpacesStep(terms, behind, pieces);
    } else if !piece.Plain? && Stage(piece) == stage {
      after := SealedReplaced(stage, terms, behind, piece, rest);
      assert !piece.Accel? ==> CanonicalOf(terms, piece) + Trail(piece) == CanonicalOf(terms, piece);
    } else {
      if !piece.Plain? && stage < Stage(piece) {
        SealedStays(stage, terms, behind, piece, rest);
      } else {
        OtherSilent(stage, terms, pieces);
        SilentQuiet(stage, terms, behind, front, rest);
      }
      SubQuiet(OutRule(terms, stage), behind, front, rest);
      after := Behind(behind, front);
    }
  }

  /** One substitution brings back the pieces of its kind. */
  lemma {:induction false} RestoreStep(stage: nat, terms: seq<string>, behind: bool, pieces: seq<Piece>)
    requires stage < 12 + |terms| && Ready(terms, pieces) && Plain('&') !in pieces
    ensures Sub(OutRule(terms, stage), behind, Shown(stage, terms, pieces)) == Shown(stage + 1, terms, pieces)
    decreases |pieces|
  {
    if pieces != [] {
      var after := PieceStep(stage, terms, behind, pieces);
      ReadyRest(terms, pieces);
      RestoreStep(stage, terms, after, pieces[1..]);
    }
  }

  lemma RestoreOnce(terms: seq<string>, stage: nat, segment: string, shown: string)
    requires stage < 12 + |terms| && RestoreTo(terms, stage, segment) == shown
    ensures RestoreTo(terms, stage + 1, segment) == Sub(OutRule(terms, stage), false, shown)
  {
  }

  lemma {:induction false} RestoreSteps(stage: nat, terms: seq<string>, pieces: seq<Piece>)
    requires stage <= 12 + |terms| && Ready(terms, pieces) && Plain('&') !in pieces
    ensures RestoreTo(terms, stage, Sealed(pieces)) == Shown(stage, terms, pieces)
  {
    if stage == 0 {
      NothingRestored(terms, pieces);
    } else {
      RestoreSteps(stage - 1, terms, pieces);
      RestoreStep(stage - 1, terms, false, pieces);
      RestoreOnce(terms, stage - 1, Sealed(pieces), Shown(stage - 1, terms, pieces));
    }
  }

  lemma {:induction false} AllRestored(terms: seq<string>, pieces: seq<Piece>)
    requires WellMade(terms, pieces)
    ensures Shown(12 + |terms|, terms, pieces) == Canonical(terms, pieces)
  {
    if pieces != [] {
      AllRestored(terms, pieces[1..]);
    }
  }

  /** Restoring the sealed pieces of a clean line gives their canonical forms. */
  lemma SealedRestored(terms: seq<string>, pieces: seq<Piece>)
    requires Ready(terms, pieces) && Plain('&') !in pieces
    ensures RestoreSegment(terms, Sealed(pieces)) == Canonical(terms, pieces)
  {
    RestoreSteps(12 + |terms|, terms, pieces);
    AllRestored(terms, pieces);
  }
}
