/** Which text run_machine_translation (tools/translate_ts.py, 860-927) returns, told without
    its own steps: line by line, from the answers of the backends. */
module TranslationLaws {
  import opened Outcomes
  import opened SentinelRules
  import opened SentinelPieces
  import SentinelWords
  import opened SentinelRestore
  import opened SentinelProtect
  import opened SentinelRoundTrip
  import opened SentinelDropped
  import opened SentinelMade
  import opened TranslationDriver
  import opened TranslationResult
  import Text

  // ----- A line without a letter ----------------------------------------------

  lemma {:induction false} SpacesOutIs(behind: bool, text: string)
    ensures Sub(SpacesOut(), behind, text) == WithoutSpaces(text)
    decreases |text|
  {
    if text != "" {
      if text[0] == '&' {
        var n := CharRun(' ', text[1..]);
        SpacesOutIs(IsWord(text[n]), text[n + 1..]);
        assert text[1..][n..] == text[n + 1..];
        assert n == 0 ==> [text[0]] == "&";
      } else {
        SpacesOutIs(IsWord(text[0]), text[1..]);
      }
    }
  }

  lemma {:induction false} StillLetterless(text: string)
    requires !HasLetter(text)
    ensures !HasLetter(WithoutSpaces(text))
    decreases |text|
  {
    if text != "" {
      var n := if text[0] == '&' then CharRun(' ', text[1..]) else 0;
      var rest := text[1..][n..];
      assert forall i | 0 <= i < |rest| :: rest[i] == text[1 + n + i];
      StillLetterless(rest);
      var left := WithoutSpaces(rest);
      assert WithoutSpaces(text) == [text[0]] + left;
      assert forall i | 1 <= i < |left| + 1 :: ([text[0]] + left)[i] == left[i - 1];
    }
  }

  lemma LetterlessStage(terms: seq<string>, stage: nat, text: string)
    requires stage < 12 + |terms| && stage != 11 && !HasLetter(text)
    ensures Sub(OutRule(terms, stage), false, text) == text
  {
    forall i | 0 <= i < |text| ensures text[i] !in "PGRT" {
      assert !IsLetter(text[i]);
    }
    SilentChars(text, "");
    SilentQuiet(stage, terms, false, text, "");
    SubQuiet(OutRule(terms, stage), false, text, "");
    assert text + "" == text;
  }

  lemma {:induction false} LetterlessTo(terms: seq<string>, stage: nat, line: string)
    requires stage <= 12 + |terms| && !HasLetter(line)
    ensures RestoreTo(terms, stage, line) == if stage <= 11 then line else WithoutSpaces(line)
    decreases stage
  {
    if stage > 0 {
      var before := stage - 1;
      LetterlessTo(terms, before, line);
      LetterlessNext(terms, before, line, RestoreTo(terms, before, line));
    }
  }

  lemma LetterlessNext(terms: seq<string>, stage: nat, line: string, text: string)
    requires stage < 12 + |terms| && !HasLetter(line)
    requires RestoreTo(terms, stage, line) == text && text == if stage <= 11 then line else WithoutSpaces(line)
    ensures RestoreTo(terms, stage + 1, line) == if stage < 11 then line else WithoutSpaces(line)
  {
    RestoreOnce(terms, stage, line, text);
    if stage == 11 {
      SpacesOutIs(false, line);
    } else {
      StillLetterless(line);
      LetterlessStage(terms, stage, text);
    }
  }

  lemma RestoreOnce(terms: seq<string>, stage: nat, line: string, text: string)
    requires stage < 12 + |terms| && RestoreTo(terms, stage, line) == text
    ensures RestoreTo(terms, stage + 1, line) == Sub(OutRule(terms, stage), false, text)
  {
  }

  /** A line without a letter is not sent away; it only loses the spaces behind its
      ampersands. */
  lemma LetterlessLine(terms: seq<string>, line: string)
    requires !HasLetter(line)
    ensures RestoreSegment(terms, line) == WithoutSpaces(line)
  {
    LetterlessTo(terms, 12 + |terms|, line);
  }

  // ----- What comes back of a line --------------------------------------------

  /** Backend i is the first that answers the protected line, with this text. */
  ghost predicate AnsweredBy(terms: seq<string>, backends: seq<Backend>, line: string, i: nat, answer: string) {
    var job := ProtectSegment(terms, line);
    AnswersFirst(backends, job, i) && backends[i].answer(job) == Some(answer)
  }

  /** The line comes back so: from the first answer with its sentinels restored, or, without
      a letter, as it is. */
  ghost predicate ComesBack(terms: seq<string>, backends: seq<Backend>, line: string, back: string) {
    if HasLetter(line) then
      exists i: nat, answer :: AnsweredBy(terms, backends, line, i, answer) && back == RestoreSegment(terms, answer)
    else back == WithoutSpaces(line)
  }

  ghost predicate AllComeBack(terms: seq<string>, backends: seq<Backend>, lines: seq<string>, backs: seq<string>) {
    |backs| == |lines| && forall k | 0 <= k < |lines| :: ComesBack(terms, backends, lines[k], backs[k])
  }

  lemma LineBack(terms: seq<string>, backends: seq<Backend>, line: string, back: string)
    ensures ComesBack(terms, backends, line, back) <==> LineText(terms, backends, line) == Some(back)
  {
    if HasLetter(line) {
      FirstAnswerIsFirst(backends, ProtectSegment(terms, line));
      var answer := FirstAnswer(backends, ProtectSegment(terms, line));
      if answer.Some? {
        var i: nat :| AnswersFirst(backends, ProtectSegment(terms, line), i)
                 && backends[i].answer(ProtectSegment(terms, line)) == Some(answer.value.text);
        assert AnsweredBy(terms, backends, line, i, answer.value.text);
        forall j: nat, other | AnsweredBy(terms, backends, line, j, other) ensures other == answer.value.text {
          OnlyFirst(backends, ProtectSegment(terms, line), i, j);
        }
      }
    } else {
      LetterlessLine(terms, line);
    }
  }

  lemma OnlyFirst(backends: seq<Backend>, job: string, i: nat, j: nat)
    requires AnswersFirst(backends, job, i) && AnswersFirst(backends, job, j)
    ensures i == j
  {
  }

  lemma BacksMore(terms: seq<string>, backends: seq<Backend>, lines: seq<string>, backs: seq<string>, line: string,
      back: string)
    ensures AllComeBack(terms, backends, lines + [line], backs + [back])
            <==> AllComeBack(terms, backends, lines, backs) && ComesBack(terms, backends, line, back)
  {
    var moreLines, moreBacks := lines + [line], backs + [back];
    if |backs| == |lines| {
      assert moreLines[|lines|] == line && moreBacks[|lines|] == back;
      assert forall k | 0 <= k < |lines| :: moreLines[k] == lines[k] && moreBacks[k] == backs[k];
    }
  }

  lemma {:induction false} LinesBack(terms: seq<string>, backends: seq<Backend>, lines: seq<string>, backs: seq<string>)
    ensures AllComeBack(terms, backends, lines, backs) <==> AllLines(terms, backends, lines) == Some(backs)
    decreases |lines|
  {
    if lines == [] {
      assert |backs| == 0 ==> backs == [];
    } else if backs != [] {
      var line, back := lines[|lines| - 1], backs[|backs| - 1];
      var front, before := lines[..|lines| - 1], backs[..|backs| - 1];
      assert lines == front + [line] && backs == before + [back];
      LinesBack(terms, backends, front, before);
      LineBack(terms, backends, line, back);
      BacksMore(terms, backends, front, before, line, back);
      AppendEqual(terms, backends, front, line, before, back);
    }
  }

  lemma AppendEqual(terms: seq<string>, backends: seq<Backend>, lines: seq<string>, line: string, backs: seq<string>,
      back: string)
    ensures AllLines(terms, backends, lines + [line]) == Some(backs + [back])
            <==> AllLines(terms, backends, lines) == Some(backs) && LineText(terms, backends, line) == Some(back)
  {
    AllLinesMore(terms, backends, lines, line);
    var before, text := AllLines(terms, backends, lines), LineText(terms, backends, line);
    if before.Some? && text.Some? && before.value + [text.value] == backs + [back] {
      SameFront(before.value, text.value, backs, back);
    }
  }

  lemma SameFront(a: seq<string>, x: string, b: seq<string>, y: string)
    requires a + [x] == b + [y]
    ensures a == b && x == y
  {
    assert |a + [x]| == |b + [y]|;
    assert a == (a + [x])[..|a|] && b == (b + [y])[..|b|];
    assert (a + [x])[|a|] == x && (b + [y])[|b|] == y;
  }

  // ----- The mnemonic ---------------------------------------------------------

  lemma {:induction false} NoAmpersands(text: string)
    ensures '&' !in WithoutAmpersands(text)
    ensures '&' !in text ==> WithoutAmpersands(text) == text
  {
    if text != "" {
      NoAmpersands(text[1..]);
    }
  }

  lemma {:induction false} AmpersandsPlus(a: string, b: string)
    ensures WithoutAmpersands(a + b) == WithoutAmpersands(a) + WithoutAmpersands(b)
  {
    if a == "" {
      assert a + b == b;
    } else {
      assert (a + b)[1..] == a[1..] + b;
      AmpersandsPlus(a[1..], b);
    }
  }

  /** A text with one ampersand more, in front of its first letter, or in front of all if
      it has none. */
  ghost predicate Placed(bare: string, front: string, rest: string, text: string) {
    && text == front + "&" + rest && front + rest == bare
    && !HasLetter(front) && (if HasLetter(rest) then IsLetter(rest[0]) else front == "")
  }

  /** An ampersand with a Latin letter behind it. */
  ghost predicate ShowsMnemonic(text: string) {
    exists front, c, rest :: text == front + "&" + [c] + rest && ('a' <= c <= 'z' || 'A' <= c <= 'Z')
  }

  lemma MnemonicShown(text: string)
    ensures HasMnemonic(text) <==> ShowsMnemonic(text)
  {
    if HasMnemonic(text) {
      var i :| 0 <= i < |text| - 1 && text[i] == '&' && IsLetter(text[i + 1]);
      assert text == text[..i] + "&" + [text[i + 1]] + text[i + 2..];
    }
    if front, c, rest :| text == front + "&" + [c] + rest && ('a' <= c <= 'z' || 'A' <= c <= 'Z') {
      assert text[|front|] == '&' && text[|front| + 1] == c;
    }
  }

  /** What of the joined lines comes back for a source: they themselves, unless the source
      has a mnemonic that they lack; and then their trimmed text without ampersands, with
      one ampersand placed. */
  ghost predicate WithMnemonic(source: string, joined: string, text: string) {
    if !ShowsMnemonic(source) || ShowsMnemonic(joined) then text == joined
    else exists front, rest :: Placed(Text.Trim(WithoutAmpersands(joined)), front, rest, text)
  }

  lemma FirstLetterSplits(bare: string)
    ensures var at := FirstLetter(bare);
            && !HasLetter(bare[..at])
            && (if at < |bare| then HasLetter(bare[at..]) && IsLetter(bare[at]) else !HasLetter(bare))
  {
    var at := FirstLetter(bare);
    FirstLetterIsLetter(bare);
    if at < |bare| {
      assert bare[at..][0] == bare[at];
    }
  }

  lemma PlacedBefore(bare: string, front: string, rest: string, text: string)
    requires front == bare[..FirstLetter(bare)] && rest == bare[FirstLetter(bare)..] && rest != ""
    requires text == front + "&" + rest
    ensures Placed(bare, front, rest, text)
  {
    FirstLetterSplits(bare);
    assert front + rest == bare && rest[0] == bare[FirstLetter(bare)];
  }

  lemma PlacedInFront(bare: string, text: string)
    requires FirstLetter(bare) == |bare| && text == "&" + bare
    ensures Placed(bare, "", bare, text)
  {
    FirstLetterSplits(bare);
    assert "" + "&" + bare == "&" + bare && "" + bare == bare;
  }

  lemma PlacedOnly(bare: string, at: nat, front: string, rest: string, text: string)
    requires at == FirstLetter(bare) && Placed(bare, front, rest, text)
    ensures text == if at < |bare| then bare[..at] + "&" + bare[at..] else "&" + bare
  {
    FirstLetterSplits(bare);
    SamePlace(bare, front, rest, at);
    assert "" + "&" + bare == "&" + bare;
  }

  lemma MnemonicIff(source: string, joined: string, text: string)
    ensures WithMnemonic(source, joined, text) <==> text == RestoreMnemonic(source, joined)
  {
    MnemonicShown(source);
    MnemonicShown(joined);
    if HasMnemonic(source) && !HasMnemonic(joined) {
      var bare := Text.Trim(WithoutAmpersands(joined));
      var at := FirstLetter(bare);
      if text == RestoreMnemonic(source, joined) {
        if at < |bare| {
          PlacedBefore(bare, bare[..at], bare[at..], text);
        } else {
          PlacedInFront(bare, text);
        }
      }
      if front, rest :| Placed(bare, front, rest, text) {
        PlacedOnly(bare, at, front, rest, text);
      }
    }
  }

  lemma SamePlace(bare: string, front: string, rest: string, at: nat)
    requires front + rest == bare && !HasLetter(front) && (if HasLetter(rest) then IsLetter(rest[0]) else front == "")
    requires at <= |bare| && !HasLetter(bare[..at])
    requires if at < |bare| then HasLetter(bare[at..]) && IsLetter(bare[at]) else !HasLetter(bare)
    ensures if at < |bare| then front == bare[..at] && rest == bare[at..] else front == "" && rest == bare
  {
    if HasLetter(rest) {
      assert bare[|front|] == rest[0];
      if |front| < at {
        assert bare[..at][|front|] == bare[|front|];
      }
      if at < |front| {
        assert front[at] == bare[at];
      }
    } else {
      assert front == "" && rest == bare;
      if at < |bare| {
        assert HasLetter(bare);
      }
    }
  }

  // ----- What comes back of a source ------------------------------------------

  /** The lines come back so, and together they make the text. */
  ghost predicate MadeOf(terms: seq<string>, backends: seq<Backend>, source: string, backs: seq<string>, text: string) {
    AllComeBack(terms, backends, SplitLines(source), backs) && WithMnemonic(source, JoinLines(backs), text)
  }

  lemma MadeOfIff(terms: seq<string>, backends: seq<Backend>, source: string, backs: seq<string>, text: string)
    ensures MadeOf(terms, backends, source, backs, text)
            <==> AllLines(terms, backends, SplitLines(source)) == Some(backs)
                 && text == RestoreMnemonic(source, JoinLines(backs))
  {
    LinesBack(terms, backends, SplitLines(source), backs);
    MnemonicIff(source, JoinLines(backs), text);
  }

  /** A source is returned with a text exactly if every line comes back, line k of the
      text from line k of the source, and the text is that of the lines with the
      mnemonic of the source. */
  lemma SourceBack(terms: seq<string>, backends: seq<Backend>, source: string, text: string)
    ensures SourceText(terms, backends, source) == Some(text)
            <==> exists backs :: MadeOf(terms, backends, source, backs, text)
  {
    var lines := AllLines(terms, backends, SplitLines(source));
    if SourceText(terms, backends, source) == Some(text) {
      MadeOfIff(terms, backends, source, lines.value, text);
    }
    if backs :| MadeOf(terms, backends, source, backs, text) {
      MadeOfIff(terms, backends, source, backs, text);
    }
  }

  /** An answer that is made of well-made pieces comes back as their canonical forms. */
  lemma PiecesComeBack(terms: seq<string>, backends: seq<Backend>, line: string, i: nat, pieces: seq<Piece>)
    requires TableOk(terms) && WellMade(terms, pieces) && Clean(Source(pieces)) && Plain('&') !in pieces
    requires HasLetter(line) && AnsweredBy(terms, backends, line, i, Sealed(pieces))
    ensures ComesBack(terms, backends, line, Canonical(terms, pieces))
  {
    SealedRestored(terms, pieces);
  }

  lemma OneLineBack(terms: seq<string>, backends: seq<Backend>, source: string, back: string)
    requires '\n' !in source && !HasMnemonic(source) && ComesBack(terms, backends, source, back)
    ensures SourceText(terms, backends, source) == Some(back)
  {
    SplitJoin(source);
    NoNewlines(source);
    var lines, backs := SplitLines(source), [back];
    assert |lines| == 1 && lines[0] == source;
    assert AllComeBack(terms, backends, lines, backs);
    MnemonicShown(source);
    assert JoinLines(backs) == back && WithMnemonic(source, back, back);
    assert MadeOf(terms, backends, source, backs, back);
    SourceBack(terms, backends, source, back);
  }

  /** A backend that only echoes: a line comes back in canonical form. */
  lemma EchoBack(terms: seq<string>, backends: seq<Backend>, source: string, i: nat)
    requires TableOk(terms) && Clean(source) && '\n' !in source && HasLetter(source) && !HasMnemonic(source)
    requires AnsweredBy(terms, backends, source, i, ProtectSegment(terms, source))
    ensures SourceText(terms, backends, source) == Some(Canonical(terms, Pieces(terms, source)))
  {
    RoundTrip(terms, source);
    OneLineBack(terms, backends, source, Canonical(terms, Pieces(terms, source)));
  }

  // ----- One line -------------------------------------------------------------

  lemma OrdinaryProtected(line: string, pieces: seq<Piece>)
    requires Clean(line) && CutPlaceholders(line) == pieces && Ordinary(pieces)
    ensures ProtectSegment([], line) == Sealed(pieces)
  {
    NoTerms([], line, pieces);
  }

  lemma NoTerms(terms: seq<string>, line: string, pieces: seq<Piece>)
    requires terms == [] && Clean(line) && CutPlaceholders(line) == pieces && Ordinary(pieces)
    ensures ProtectSegment(terms, line) == Sealed(pieces)
  {
    OrdinaryTo(terms, 11, line);
    assert Pieces(terms, line) == PiecesTo(terms, 11, line);
    RoundTrip(terms, line);
  }

  lemma {:induction false} NothingStarts(text: string)
    requires forall i | 0 <= i < |text| :: text[i] !in "PGRT"
    ensures Clean(text)
  {
    if text != "" {
      NothingStarts(text[1..]);
      if !Read(text).0.Nothing? {
        SentinelWords.ReadTail(text);
      }
    }
  }

  lemma {:induction false} PlainsMade(text: string)
    ensures WellMade([], Plains(text)) && Canonical([], Plains(text)) == text
    ensures |Plains(text)| == |text| && forall k | 0 <= k < |text| :: Plains(text)[k] == Plain(text[k])
  {
    if text != "" {
      PlainsMade(text[1..]);
      assert Plains(text)[1..] == Plains(text[1..]);
    }
  }

  /** "%1" and an ordinary text behind it. */
  function Numbered(text: string): seq<Piece> { [Placeholder("1", "")] + Plains(text) }

  lemma NumberedPieces(text: string)
    requires text != "" && !IsDigit(text[0]) && '%' !in text && '&' !in text
    requires forall i | 0 <= i < |text| :: text[i] !in "PGRT"
    ensures var pieces := Numbered(text);
            && WellMade([], pieces) && Clean(Source(pieces)) && Plain('&') !in pieces
            && Sealed(pieces) == "PH1X" + text && Canonical([], pieces) == "%1" + text
  {
    NumberedMade(text);
    DigitsCore();
    NumberedSource(text);
    NothingStarts("%1" + text);
  }

  lemma NumberedMade(text: string)
    requires '&' !in text
    ensures WellMade([], Numbered(text)) && Plain('&') !in Numbered(text)
    ensures Canonical([], Numbered(text)) == CanonicalOf([], Placeholder("1", "")) + text
    ensures Sealed(Numbered(text)) == Core(Placeholder("1", "")) + Trail(Placeholder("1", "")) + text
  {
    var pieces := Numbered(text);
    assert pieces[1..] == Plains(text);
    PlainsMade(text);
    PlainsShown(text);
    assert AllDigits("1") by { assert "1"[1..] == ""; }
    if Plain('&') in pieces {
      var k :| 0 <= k < |pieces| && pieces[k] == Plain('&');
      assert text[k - 1] == '&';
    }
  }

  lemma DigitsCore()
    ensures Core(Placeholder("1", "")) + Trail(Placeholder("1", "")) == "PH1X"
    ensures SourceOf(Placeholder("1", "")) == "%1" && CanonicalOf([], Placeholder("1", "")) == "%1"
  {
  }

  lemma NumberedSource(text: string)
    ensures Source(Numbered(text)) == "%1" + text
  {
    PlainsShown(text);
    DigitsCore();
    assert Numbered(text)[1..] == Plains(text);
  }

  lemma CutNumbered(text: string)
    requires text != "" && !IsDigit(text[0]) && '%' !in text
    ensures CutPlaceholders("%1" + text) == Numbered(text)
  {
    var line := "%1" + text;
    assert line[1..][1..] == text && line[1..2] == "1" && line[2..] == text;
    assert DigitRun(text) == 0 && DigitRun(line[1..]) == 1 && PlaceholderLength(line) == 2;
    PlainCut(text);
  }

  lemma NumberedOrdinary(text: string)
    requires forall i | 0 <= i < |text| :: IsOrdinary(text[i])
    ensures Ordinary(Numbered(text))
  {
    PlainsMade(text);
  }

  /** The protected line holds the token, and the token comes back as the placeholder in
      what the backend makes of it. */
  lemma NumberedExample(text: string, translated: string, backend: Backend)
    requires text == " volume" && translated == " Datentr\U{e4}ger"
    requires backend.answer("PH1X" + text) == Some("PH1X" + translated)
    ensures ProtectSegment([], "%1" + text) == "PH1X" + text
    ensures SourceText([], [backend], "%1" + text) == Some("%1" + translated)
  {
    var source := "%1" + text;
    PlainLetters(text, translated);
    HasVolume(source, text);
    NumberedProtected(text, source);
    NumberedBack(text, source, translated, backend);
  }

  lemma NumberedProtected(text: string, source: string)
    requires text != "" && !IsDigit(text[0]) && '%' !in text && '&' !in text && source == "%1" + text
    requires forall i | 0 <= i < |text| :: text[i] !in "PGRT" && IsOrdinary(text[i])
    ensures ProtectSegment([], source) == "PH1X" + text
  {
    NumberedPieces(text);
    NumberedOrdinary(text);
    CutNumbered(text);
    NumberedSource(text);
    OrdinaryProtected(source, Numbered(text));
  }

  /** What comes back of a line with one placeholder, whatever the backend makes of the
      rest. */
  lemma NumberedBack(text: string, source: string, translated: string, backend: Backend)
    requires HasLetter(source) && !HasMnemonic(source) && '\n' !in source && ProtectSegment([], source) == "PH1X" + text
    requires translated != "" && !IsDigit(translated[0]) && '%' !in translated && '&' !in translated
    requires forall i | 0 <= i < |translated| :: translated[i] !in "PGRT"
    requires backend.answer("PH1X" + text) == Some("PH1X" + translated)
    ensures SourceText([], [backend], source) == Some("%1" + translated)
  {
    NumberedPieces(translated);
    assert AnsweredBy([], [backend], source, 0, Sealed(Numbered(translated)));
    PiecesComeBack([], [backend], source, 0, Numbered(translated));
    OneLineBack([], [backend], source, "%1" + translated);
  }

  lemma PlainLetters(text: string, translated: string)
    requires text == " volume" && translated == " Datentr\U{e4}ger"
    ensures forall i | 0 <= i < |text| :: text[i] !in "PGRT" && IsOrdinary(text[i]) && text[i] != '%'
    ensures forall i | 0 <= i < |translated| :: translated[i] !in "PGRT" && translated[i] != '%' && translated[i] != '&'
  {
  }

  lemma HasVolume(source: string, text: string)
    requires text == " volume" && source == "%1" + text
    ensures HasLetter(source) && !HasMnemonic(source) && '\n' !in source
  {
    assert source[3] == 'v';
  }

  // ----- The backend that is named --------------------------------------------

  /** Line k is the first with a letter that is answered, by backend i. */
  ghost predicate NamedBy(terms: seq<string>, backends: seq<Backend>, lines: seq<string>, k: nat, i: nat) {
    && k < |lines| && HasLetter(lines[k]) && AnswersFirst(backends, ProtectSegment(terms, lines[k]), i)
    && forall j | 0 <= j < k :: HasLetter(lines[j]) ==> !Answered(backends, ProtectSegment(terms, lines[j]))
  }

  lemma {:induction false} FirstNameIs(terms: seq<string>, backends: seq<Backend>, lines: seq<string>)
    ensures match FirstName(terms, backends, lines)
            case Some(name) =>
              exists k: nat, i: nat :: NamedBy(terms, backends, lines, k, i) && name == backends[i].name
            case None => forall k | 0 <= k < |lines| && HasLetter(lines[k]) ::
                           !Answered(backends, ProtectSegment(terms, lines[k]))
  {
    if lines != [] {
      var init, last, n := lines[..|lines| - 1], lines[|lines| - 1], |lines| - 1;
      var job := ProtectSegment(terms, last);
      FirstNameIs(terms, backends, init);
      FirstAnswerIsFirst(backends, job);
      assert forall k | 0 <= k < n :: init[k] == lines[k];
      match FirstName(terms, backends, init)
      case Some(name) =>
        var k: nat, i: nat :| NamedBy(terms, backends, init, k, i) && name == backends[i].name;
        assert NamedBy(terms, backends, lines, k, i);
      case None =>
        if HasLetter(last) && FirstAnswer(backends, job).Some? {
          var i: nat :| AnswersFirst(backends, job, i) && backends[i].name == FirstAnswer(backends, job).value.backend;
          assert NamedBy(terms, backends, lines, n, i);
        }
    }
  }

  /** A source is named after the backend that answered its first line with a letter, or
      "machine" if no line has one. */
  lemma SourceNamed(terms: seq<string>, backends: seq<Backend>, source: string)
    requires SourceText(terms, backends, source).Some?
    ensures var lines, name := SplitLines(source), SourceName(terms, backends, source);
            || (name == "machine" && forall k | 0 <= k < |lines| :: !HasLetter(lines[k]))
            || exists k: nat, i: nat :: NamedBy(terms, backends, lines, k, i) && name == backends[i].name
                                        && forall j | 0 <= j < k :: !HasLetter(lines[j])
  {
    var lines := SplitLines(source);
    FirstNameIs(terms, backends, lines);
    ReturnedIff(terms, backends, source);
    assert forall k | 0 <= k < |lines| :: LineAnswered(terms, backends, lines[k]);
  }
}
