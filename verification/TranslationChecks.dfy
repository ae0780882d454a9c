/** What verify of tools/translate_ts.py (520-571) lets through, told on the characters of the
    texts: sentinels that survive, terms that stand, placeholders in order. */
module TranslationChecks {
  import opened Outcomes
  import opened SentinelRules
  import opened SentinelWords
  import opened SentinelPlaceholders
  import opened TranslationDriver
  import opened TranslationVerify
  import opened TranslationFill
  import Text

  // ----- Sentinels that survive -----------------------------------------------

  predicate DigitsOnly(text: string) {
    text != "" && forall i | 0 <= i < |text| :: '0' <= text[i] <= '9'
  }

  /** Five kinds of letters with digits and an X behind them, or the plural token. */
  ghost predicate IsSurvivor(word: string) {
    || word == "PHNX"
    || exists letters, digits ::
         letters in ["TR", "PH", "GL", "RLA", "RLB"] && DigitsOnly(digits) && word == letters + digits + "X"
  }

  lemma {:induction false} AllDigitsIff(text: string)
    ensures AllDigits(text) <==> text == "" || DigitsOnly(text)
  {
    if text != "" {
      AllDigitsIff(text[1..]);
      assert forall i | 1 <= i < |text| :: text[i] == text[1..][i - 1];
      if DigitsOnly(text) && |text| > 1 {
        assert DigitsOnly(text[1..]);
      }
    }
  }

  /** The digits and the X that a number is read from. */
  lemma NumberSplits(text: string, letters: string)
    requires letters <= text && Number(text[|letters|..]) != ""
    ensures var digits := Number(text[|letters|..]);
            && DigitsOnly(digits) && |letters| + |digits| + 1 <= |text|
            && text[..|letters| + |digits| + 1] == letters + digits + "X"
  {
    var rest := text[|letters|..];
    var digits := Number(rest);
    NumberDigits(rest);
    AllDigitsIff(digits);
    assert text == letters + rest && rest == digits + "X" + rest[|digits| + 1..];
  }

  lemma SurvivorFound(text: string, letters: string) returns (n: nat)
    requires letters in ["TR", "PH", "GL", "RLA", "RLB"] && letters <= text && Number(text[|letters|..]) != ""
    ensures n <= |text| && IsSurvivor(text[..n])
  {
    NumberSplits(text, letters);
    n := |letters| + |Number(text[|letters|..])| + 1;
  }

  lemma NumberedWord(letters: string, digits: string, rest: string)
    requires DigitsOnly(digits)
    ensures var text := letters + digits + "X" + rest;
            |text| > |letters| && Number(text[|letters|..]) == digits && '0' <= text[|letters|] <= '9'
  {
    var text := letters + digits + "X" + rest;
    AllDigitsIff(digits);
    NumberOf(digits, rest);
    assert text[|letters|..] == digits + "X" + rest;
    assert text[|letters|] == digits[0];
  }

  lemma LettersOf(text: string) returns (letters: string)
    requires SurvivorAt(text) && !Read(text).0.Plural?
    ensures letters in ["TR", "PH", "GL", "RLA", "RLB"] && letters <= text && Number(text[|letters|..]) != ""
  {
    ReadLetters(text);
    var sentinel := Read(text).0;
    if sentinel.Digits? {
      letters := "PH";
    } else if sentinel.Term? {
      letters := "TR";
    } else if sentinel.Run? {
      letters := if sentinel.line == 0 then "RLA" else "RLB";
    } else {
      letters := "GL";
    }
  }

  lemma PluralWord(text: string)
    ensures Read(text).0.Plural? <==> "PHNX" <= text
  {
  }

  lemma SurvivorRead(letters: string, digits: string, rest: string)
    requires letters in ["TR", "PH", "GL", "RLA", "RLB"] && DigitsOnly(digits)
    ensures SurvivorAt(letters + digits + "X" + rest)
  {
    var text := letters + digits + "X" + rest;
    NumberedWord(letters, digits, rest);
    assert letters <= text;
    assert text[0] == letters[0] && text[1] == letters[1];
    if |letters| == 3 {
      assert text[2] == letters[2];
    }
  }

  lemma SurvivorAtIff(text: string)
    ensures SurvivorAt(text) <==> exists n: nat :: n <= |text| && IsSurvivor(text[..n])
  {
    if SurvivorAt(text) {
      if Read(text).0.Plural? {
        PluralWord(text);
        assert IsSurvivor(text[..4]);
      } else {
        var letters := LettersOf(text);
        var n := SurvivorFound(text, letters);
      }
    }
    if n: nat :| n <= |text| && IsSurvivor(text[..n]) {
      var word, rest := text[..n], text[n..];
      assert text == word + rest;
      if word == "PHNX" {
        PluralWord(text);
      } else {
        var letters, digits :| letters in ["TR", "PH", "GL", "RLA", "RLB"] && DigitsOnly(digits)
                               && word == letters + digits + "X";
        SurvivorRead(letters, digits, rest);
      }
    }
  }

  ghost predicate SurvivorIn(text: string, i: nat, j: nat) { i <= j <= |text| && IsSurvivor(text[i..j]) }

  lemma SurvivorLater(text: string, i: nat, j: nat)
    requires text != "" && i <= j
    ensures SurvivorIn(text[1..], i, j) <==> SurvivorIn(text, i + 1, j + 1)
  {
    if j + 1 <= |text| {
      assert text[1..][i..j] == text[i + 1..j + 1];
    }
  }

  /** A text shows a survivor exactly if some stretch of it is one. */
  lemma {:induction false} HasSurvivorIff(text: string)
    ensures HasSurvivor(text) <==> exists i: nat, j: nat :: SurvivorIn(text, i, j)
  {
    SurvivorAtIff(text);
    if text != "" {
      HasSurvivorIff(text[1..]);
      if SurvivorAt(text) {
        var n: nat :| n <= |text| && IsSurvivor(text[..n]);
        assert text[..n] == text[0..n];
        assert SurvivorIn(text, 0, n);
      } else if HasSurvivor(text[1..]) {
        var i: nat, j: nat :| SurvivorIn(text[1..], i, j);
        SurvivorLater(text, i, j);
      }
      if i: nat, j: nat :| SurvivorIn(text, i, j) {
        if i == 0 {
          assert text[..j] == text[0..j];
        } else {
          SurvivorLater(text, i - 1, j - 1);
        }
      }
    } else if i: nat, j: nat :| SurvivorIn(text, i, j) {
      assert text[i..j] == "";
      NotEmpty(text[i..j]);
    }
  }

  lemma NotEmpty(word: string)
    requires IsSurvivor(word)
    ensures word != ""
  {
  }

  // ----- Terms that stand -----------------------------------------------------

  /** The term, in whatever case, from place i on; what stands before and behind it is not
      looked at. */
  ghost predicate SpelledFrom(term: string, text: string, i: nat) {
    i + |term| <= |text| && forall k | 0 <= k < |term| :: Upper(term[k]) == Upper(text[i + k])
  }

  /** A term of a source: neither a word character before it, nor one or a hyphen behind. */
  ghost predicate StandsIn(term: string, text: string, i: nat) {
    && SpelledFrom(term, text, i)
    && (i > 0 ==> !IsWord(text[i - 1]))
    && (i + |term| < |text| ==> !IsWord(text[i + |term|]) && text[i + |term|] != '-')
  }

  /** A term of a translation: behind it only a letter or a digit would hide it. */
  ghost predicate ShowsIn(term: string, text: string, i: nat) {
    && SpelledFrom(term, text, i)
    && (i > 0 ==> !IsWord(text[i - 1]))
    && (i + |term| < |text| ==> !IsLetter(text[i + |term|]) && !IsDigit(text[i + |term|]))
  }

  lemma {:induction false} SpelledAtIff(term: string, text: string)
    ensures SpelledAt(term, text) <==> SpelledFrom(term, text, 0)
  {
    if term != "" && text != "" {
      SpelledAtIff(term[1..], text[1..]);
      assert forall k | 1 <= k < |term| :: term[k] == term[1..][k - 1];
      assert forall k | 1 <= k < |text| :: text[k] == text[1..][k - 1];
      if SpelledFrom(term[1..], text[1..], 0) && Upper(term[0]) == Upper(text[0]) {
        forall k | 0 <= k < |term| ensures Upper(term[k]) == Upper(text[0 + k]) {
          if k > 0 {
            assert Upper(term[1..][k - 1]) == Upper(text[1..][0 + (k - 1)]);
          }
        }
      }
      if SpelledFrom(term, text, 0) {
        forall k | 0 <= k < |term| - 1 ensures Upper(term[1..][k]) == Upper(text[1..][0 + k]) {
          assert Upper(term[k + 1]) == Upper(text[0 + (k + 1)]);
        }
        assert Upper(term[0]) == Upper(text[0 + 0]);
      }
    }
  }

  lemma StandsLater(term: string, text: string, i: nat)
    requires text != ""
    ensures i > 0 ==> (StandsIn(term, text[1..], i) <==> StandsIn(term, text, i + 1))
    ensures i > 0 ==> (ShowsIn(term, text[1..], i) <==> ShowsIn(term, text, i + 1))
    ensures StandsIn(term, text, 1) <==> !IsWord(text[0]) && StandsIn(term, text[1..], 0)
    ensures ShowsIn(term, text, 1) <==> !IsWord(text[0]) && ShowsIn(term, text[1..], 0)
  {
    SpelledLater(term, text, i);
    SpelledLater(term, text, 0);
    assert forall k | 1 <= k < |text| :: text[k] == text[1..][k - 1];
  }

  lemma SpelledLater(term: string, text: string, i: nat)
    requires text != ""
    ensures SpelledFrom(term, text[1..], i) <==> SpelledFrom(term, text, i + 1)
  {
    if i + 1 + |term| <= |text| {
      forall k | 0 <= k < |term|
        ensures Upper(term[k]) == Upper(text[1..][i + k]) <==> Upper(term[k]) == Upper(text[i + 1 + k])
      {
        assert text[1..][i + k] == text[i + 1 + k];
      }
    }
  }

  /** The first place counts only if nothing hides it from before. */
  ghost predicate Stands(term: string, behind: bool, text: string, i: nat) {
    StandsIn(term, text, i) && (i == 0 ==> !behind)
  }

  ghost predicate Shows(term: string, behind: bool, text: string, i: nat) {
    ShowsIn(term, text, i) && (i == 0 ==> !behind)
  }

  lemma {:induction false} HasTermFrom(term: string, behind: bool, text: string)
    requires term != ""
    ensures HasTerm(term, behind, text) <==> exists i: nat :: Stands(term, behind, text, i)
    decreases |text|
  {
    SpelledAtIff(term, text);
    assert TermAt(term, behind, text) <==> Stands(term, behind, text, 0);
    if text != "" {
      var rest, word := text[1..], IsWord(text[0]);
      HasTermFrom(term, word, rest);
      if HasTerm(term, word, rest) {
        var i: nat :| Stands(term, word, rest, i);
        StandsLater(term, text, i);
        assert Stands(term, behind, text, i + 1);
      }
      if i: nat :| Stands(term, behind, text, i) {
        if i > 0 {
          StandsLater(term, text, i - 1);
          assert Stands(term, word, rest, i - 1);
        }
      }
    }
  }

  lemma {:induction false} ShowsTermFrom(term: string, behind: bool, text: string)
    requires term != ""
    ensures HasTermLoosely(term, behind, text) <==> exists i: nat :: Shows(term, behind, text, i)
    decreases |text|
  {
    SpelledAtIff(term, text);
    assert LooseAt(term, behind, text) <==> Shows(term, behind, text, 0);
    if text != "" {
      var rest, word := text[1..], IsWord(text[0]);
      ShowsTermFrom(term, word, rest);
      if HasTermLoosely(term, word, rest) {
        var i: nat :| Shows(term, word, rest, i);
        StandsLater(term, text, i);
        assert Shows(term, behind, text, i + 1);
      }
      if i: nat :| Shows(term, behind, text, i) {
        if i > 0 {
          StandsLater(term, text, i - 1);
          assert Shows(term, word, rest, i - 1);
        }
      }
    }
  }

  lemma TermStands(term: string, source: string)
    requires term != ""
    ensures HasTerm(term, false, source) <==> exists i: nat :: StandsIn(term, source, i)
  {
    HasTermFrom(term, false, source);
    if i: nat :| StandsIn(term, source, i) {
      assert Stands(term, false, source, i);
    }
  }

  lemma TermShows(term: string, translation: string)
    requires term != ""
    ensures HasTermLoosely(term, false, translation) <==> exists i: nat :: ShowsIn(term, translation, i)
  {
    ShowsTermFrom(term, false, translation);
    if i: nat :| ShowsIn(term, translation, i) {
      assert Shows(term, false, translation, i);
    }
  }

  /** The terms survive exactly if each one that stands somewhere in the source shows
      somewhere in the translation. */
  lemma TermsSurviveIff(terms: seq<string>, source: string, translation: string)
    requires forall term | term in terms :: term != ""
    ensures TermsSurvive(terms, source, translation)
            <==> forall term, i: nat | term in terms && StandsIn(term, source, i) ::
                   exists j: nat :: ShowsIn(term, translation, j)
  {
    forall k | 0 <= k < |terms|
      ensures HasTerm(terms[k], false, source) <==> exists i: nat :: StandsIn(terms[k], source, i)
      ensures HasTermLoosely(terms[k], false, translation) <==> exists j: nat :: ShowsIn(terms[k], translation, j)
    {
      assert terms[k] in terms;
      TermStands(terms[k], source);
      TermShows(terms[k], translation);
    }
  }

  // ----- Placeholders in order ------------------------------------------------

  lemma BodyLength(body: string, rest: string)
    requires body == "n" || (DigitsOnly(body) && (rest == "" || !IsDigit(rest[0])))
    ensures PlaceholderLength("%" + body + rest) == 1 + |body|
  {
    var text := "%" + body + rest;
    assert text[1..] == body + rest;
    if body != "n" {
      AllDigitsIff(body);
      DigitRunOf(body, rest);
      assert text[1] == body[0];
    }
  }

  /** The first placeholder of a text: a percent sign with an n behind it, or with all the
      digits that stand there. */
  lemma PlaceholderFirst(front: string, body: string, rest: string)
    requires '%' !in front && (body == "n" || (DigitsOnly(body) && (rest == "" || !IsDigit(rest[0]))))
    ensures PlaceholdersOf(front + ("%" + body + rest)) == ["%" + body] + PlaceholdersOf(rest)
  {
    NoPercent(front, "%" + body + rest);
    BodyLength(body, rest);
    PercentBody(body, rest);
  }

  /** Any other percent sign is none. */
  lemma LonePercent(front: string, rest: string)
    requires '%' !in front && (rest == "" || (rest[0] != 'n' && !IsDigit(rest[0])))
    ensures PlaceholdersOf(front + ("%" + rest)) == PlaceholdersOf(rest)
    ensures PlaceholdersOf(front) == []
  {
    NoPercent(front, "%" + rest);
    NoPercent(front, "");
    assert front + "" == front;
    assert ("%" + rest)[1..] == rest;
  }

  // ----- What is let through --------------------------------------------------

  lemma {:induction false} TrimLetters(text: string)
    ensures HasLetter(Text.TrimLeft(text)) <==> HasLetter(text)
    ensures HasLetter(Text.TrimRight(text)) <==> HasLetter(text)
  {
    if text != "" {
      if Text.IsSpace(text[0]) {
        TrimLetters(text[1..]);
        assert forall i | 1 <= i < |text| :: text[i] == text[1..][i - 1];
      }
      if Text.IsSpace(text[|text| - 1]) {
        TrimLetters(text[..|text| - 1]);
        assert forall i | 0 <= i < |text| - 1 :: text[i] == text[..|text| - 1][i];
      }
    }
  }

  /** A source is left alone exactly if it holds no letter. */
  lemma TokenOnlyIff(source: string)
    ensures IsTokenOnly(source) <==> !HasLetter(source)
  {
    TrimLetters(source);
    TrimLetters(Text.TrimLeft(source));
  }

  predicate AllSpace(text: string) {
    forall i | 0 <= i < |text| :: Text.IsSpace(text[i])
  }

  lemma {:induction false} TrimmedAway(text: string)
    ensures AllSpace(Text.TrimLeft(text)) <==> AllSpace(text)
    ensures AllSpace(Text.TrimRight(text)) <==> AllSpace(text)
    ensures Text.TrimRight(text) == "" <==> AllSpace(text)
  {
    if text != "" {
      var init, last := text[..|text| - 1], text[|text| - 1];
      if Text.IsSpace(text[0]) {
        TrimmedAway(text[1..]);
        assert forall i | 1 <= i < |text| :: text[i] == text[1..][i - 1];
      }
      if Text.IsSpace(last) {
        TrimmedAway(init);
        assert forall i | 0 <= i < |init| :: text[i] == init[i];
      }
    }
  }

  /** A message is filled exactly if it is not vanished and its translation is white space
      throughout. */
  lemma OpenIff(message: Message)
    ensures IsOpen(message) <==> message.kind != Some("vanished") && AllSpace(message.translation)
  {
    TrimmedAway(message.translation);
    TrimmedAway(Text.TrimLeft(message.translation));
  }

  /** Nothing that is shipped is white space throughout, and what stays empty is marked. */
  lemma ShippedOrMarked(setup: Setup, message: Message)
    requires IsOpen(message)
    ensures var now := TranslationFill.Run(setup, message);
            if now.kind == Some("unfinished") then
              now.translation == "" && forall text :: !Shippable(setup, message.source, text)
            else now.kind == None && !AllSpace(now.translation)
  {
    RunIsSafe(setup, message);
    var now := TranslationFill.Run(setup, message);
    TrimmedAway(now.translation);
    TrimmedAway(Text.TrimLeft(now.translation));
  }

  /** What a run makes of the source of an open message without an override, by machine:
      no stretch of it is a sentinel, and every term that stands in the source shows. */
  lemma ShippedByMachine(setup: Setup, source: string, text: string)
    requires Shippable(setup, source, text) && source !in setup.overrides && source !in setup.terms
    requires forall term | term in setup.terms :: term != ""
    ensures HasLetter(source)
    ensures forall i: nat, j: nat :: !SurvivorIn(text, i, j)
    ensures forall term, i: nat | term in setup.terms && StandsIn(term, source, i) ::
              exists j: nat :: ShowsIn(term, text, j)
  {
    TokenOnlyIff(source);
    HasSurvivorIff(text);
    TermsSurviveIff(setup.terms, source, text);
  }
}
