/** What run_machine_translation (tools/translate_ts.py, 860-927) promises of the sources
    it returns. */
module TranslationResult {
  import opened Outcomes
  import opened SentinelRules
  import opened TranslationDriver
  import Text

  // ----- The chain is "the first backend that answers" -------------------------

  /** Backend i answers, and none before it. */
  ghost predicate AnswersFirst(backends: seq<Backend>, line: string, i: nat) {
    && i < |backends| && backends[i].answer(line).Some?
    && forall j | 0 <= j < i :: backends[j].answer(line).None?
  }

  lemma {:induction false} FirstAnswerIsFirst(backends: seq<Backend>, line: string)
    ensures match FirstAnswer(backends, line)
            case None => forall i | 0 <= i < |backends| :: backends[i].answer(line).None?
            case Some(answer) => exists i: nat :: AnswersFirst(backends, line, i)
                                                 && backends[i].answer(line) == Some(answer.text)
                                                 && backends[i].name == answer.backend
  {
    if backends != [] {
      var before, n := backends[..|backends| - 1], |backends| - 1;
      FirstAnswerIsFirst(before, line);
      match FirstAnswer(before, line) {
        case Some(answer) =>
          var i: nat :| AnswersFirst(before, line, i) && before[i].answer(line) == Some(answer.text)
                   && before[i].name == answer.backend;
          assert AnswersFirst(backends, line, i) && backends[i] == before[i];
        case None =>
          if backends[n].answer(line).Some? {
            assert AnswersFirst(backends, line, n);
          }
      }
    }
  }

  /** Some backend answers the line. */
  ghost predicate Answered(backends: seq<Backend>, line: string) {
    exists i | 0 <= i < |backends| :: backends[i].answer(line).Some?
  }

  ghost predicate LineAnswered(terms: seq<string>, backends: seq<Backend>, line: string) {
    HasLetter(line) ==> Answered(backends, ProtectSegment(terms, line))
  }

  lemma LineTextIff(terms: seq<string>, backends: seq<Backend>, line: string)
    ensures LineText(terms, backends, line).Some? <==> LineAnswered(terms, backends, line)
  {
    var job := ProtectSegment(terms, line);
    FirstAnswerIsFirst(backends, job);
    if FirstAnswer(backends, job).Some? {
      var i: nat :| AnswersFirst(backends, job, i);
      assert Answered(backends, job);
    }
  }

  ghost predicate AllAnswered(terms: seq<string>, backends: seq<Backend>, lines: seq<string>) {
    forall k | 0 <= k < |lines| :: LineAnswered(terms, backends, lines[k])
  }

  lemma AllAnsweredMore(terms: seq<string>, backends: seq<Backend>, lines: seq<string>, line: string)
    ensures AllAnswered(terms, backends, lines + [line])
            <==> AllAnswered(terms, backends, lines) && LineAnswered(terms, backends, line)
  {
    var more := lines + [line];
    assert more[|lines|] == line;
    assert forall k | 0 <= k < |lines| :: more[k] == lines[k];
  }

  lemma {:induction false} AllLinesIff(terms: seq<string>, backends: seq<Backend>, lines: seq<string>)
    ensures AllLines(terms, backends, lines).Some? <==> AllAnswered(terms, backends, lines)
  {
    if lines != [] {
      var before, last := lines[..|lines| - 1], lines[|lines| - 1];
      AllLinesIff(terms, backends, before);
      LineTextIff(terms, backends, last);
      AllAnsweredMore(terms, backends, before, last);
      assert lines == before + [last];
    }
  }

  /** A source is returned exactly when every letter-bearing line got an answer. */
  lemma ReturnedIff(terms: seq<string>, backends: seq<Backend>, source: string)
    ensures SourceText(terms, backends, source).Some? <==> AllAnswered(terms, backends, SplitLines(source))
  {
    AllLinesIff(terms, backends, SplitLines(source));
  }

  // ----- Newlines -------------------------------------------------------------

  lemma {:induction false} NewlinesPlus(a: string, b: string)
    ensures Newlines(a + b) == Newlines(a) + Newlines(b)
    decreases |b|
  {
    if b == "" {
      assert a + b == a;
    } else {
      assert (a + b)[..|a + b| - 1] == a + b[..|b| - 1];
      NewlinesPlus(a, b[..|b| - 1]);
    }
  }

  lemma {:induction false} NoNewlines(text: string)
    ensures '\n' !in text <==> Newlines(text) == 0
  {
    if text != "" {
      NoNewlines(text[..|text| - 1]);
      assert text == text[..|text| - 1] + [text[|text| - 1]];
    }
  }

  lemma {:induction false} JoinedNewlines(lines: seq<string>)
    requires lines != [] && forall k | 0 <= k < |lines| :: '\n' !in lines[k]
    ensures Newlines(JoinLines(lines)) == |lines| - 1
  {
    var last := lines[|lines| - 1];
    NoNewlines(last);
    if |lines| > 1 {
      var before := JoinLines(lines[..|lines| - 1]);
      JoinedNewlines(lines[..|lines| - 1]);
      NewlinesPlus(before, "\n");
      NewlinesPlus(before + "\n", last);
    }
  }

  lemma JoinLast(before: seq<string>, last: string)
    ensures JoinLines(before + [last]) == if before == [] then last else JoinLines(before) + "\n" + last
  {
    assert (before + [last])[..|before|] == before;
  }

  lemma JoinLonger(before: seq<string>, last: string, c: char)
    ensures JoinLines(before + [last + [c]]) == JoinLines(before + [last]) + [c]
  {
    JoinLast(before, last);
    JoinLast(before, last + [c]);
    if before != [] {
      var front := JoinLines(before) + "\n";
      assert front + (last + [c]) == front + last + [c];
    }
  }

  lemma JoinNewline(lines: seq<string>)
    requires lines != []
    ensures JoinLines(lines + [""]) == JoinLines(lines) + "\n"
  {
    JoinLast(lines, "");
    assert JoinLines(lines) + "\n" + "" == JoinLines(lines) + "\n";
  }

  lemma {:induction false} SplitJoins(text: string)
    ensures JoinLines(SplitLines(text)) == text
  {
    if text != "" {
      var init, c := text[..|text| - 1], text[|text| - 1];
      var lines := SplitLines(init);
      SplitJoins(init);
      assert lines == lines[..|lines| - 1] + [lines[|lines| - 1]];
      JoinLonger(lines[..|lines| - 1], lines[|lines| - 1], c);
      JoinNewline(lines);
      assert text == init + [c];
    }
  }

  lemma {:induction false} SplitOneLine(text: string)
    ensures forall k | 0 <= k < |SplitLines(text)| :: '\n' !in SplitLines(text)[k]
    ensures |SplitLines(text)| == Newlines(text) + 1
  {
    if text != "" {
      SplitOneLine(text[..|text| - 1]);
    }
  }

  /** Splitting at newlines leaves none in the lines, and joining undoes it. */
  lemma SplitJoin(text: string)
    ensures JoinLines(SplitLines(text)) == text
    ensures forall k | 0 <= k < |SplitLines(text)| :: '\n' !in SplitLines(text)[k]
    ensures |SplitLines(text)| == Newlines(text) + 1
  {
    SplitJoins(text);
    SplitOneLine(text);
  }

  // ----- No substitution brings a newline --------------------------------------

  ghost predicate PutsNoNewline(rule: Rule) {
    forall taken: string :: '\n' !in taken ==> '\n' !in rule.put(taken)
  }

  lemma {:induction false} SubNoNewline(rule: Rule, behind: bool, text: string)
    requires PutsNoNewline(rule) && '\n' !in text
    ensures '\n' !in Sub(rule, behind, text)
    decreases |text|
  {
    if text != "" {
      var n := rule.take(behind, text);
      if 0 < n <= |text| {
        SubNoNewline(rule, IsWord(text[n - 1]), text[n..]);
        assert '\n' !in text[..n];
      } else {
        SubNoNewline(rule, IsWord(text[0]), text[1..]);
      }
    }
  }

  lemma {:induction false} RepeatNoNewline(c: char, n: nat)
    requires c != '\n'
    ensures '\n' !in Repeat(c, n)
  {
    if n > 0 {
      RepeatNoNewline(c, n - 1);
    }
  }

  lemma {:induction false} DecimalNoNewline(n: nat)
    ensures '\n' !in Decimal(n)
  {
    if n >= 10 {
      DecimalNoNewline(n / 10);
    }
  }

  ghost predicate OneLineTerms(terms: seq<string>) {
    forall i | 0 <= i < |terms| :: '\n' !in terms[i]
  }

  lemma RunPutsNoNewline(line: nat)
    ensures PutsNoNewline(RunOut(line))
  {
    forall taken: string | '\n' !in taken ensures '\n' !in RunOut(line).put(taken) {
      if |taken| >= 4 && Value(taken[3..|taken| - 1]) >= 0 {
        RepeatNoNewline(LineChar(line), Value(taken[3..|taken| - 1]));
      }
    }
  }

  lemma TermPutsNoNewline(index: nat, term: string)
    requires '\n' !in term
    ensures PutsNoNewline(TermOut(index, term))
  {
  }

  lemma OutPutsNoNewline(terms: seq<string>, stage: nat)
    requires stage < 12 + |terms| && OneLineTerms(terms)
    ensures PutsNoNewline(OutRule(terms, stage))
  {
    if 8 <= stage < 10 {
      RunPutsNoNewline(stage - 8);
    } else if stage >= 12 {
      TermPutsNoNewline(stage - 12, terms[stage - 12]);
    }
  }

  lemma {:induction false} RestoredNoNewline(terms: seq<string>, stage: nat, text: string)
    requires stage <= 12 + |terms| && OneLineTerms(terms) && '\n' !in text
    ensures '\n' !in RestoreTo(terms, stage, text)
    decreases stage
  {
    if stage > 0 {
      RestoredNoNewline(terms, stage - 1, text);
      OutPutsNoNewline(terms, stage - 1);
      SubNoNewline(OutRule(terms, stage - 1), false, RestoreTo(terms, stage - 1, text));
    }
  }

  /** Backends that answer a line with a line. */
  ghost predicate LineByLine(backends: seq<Backend>) {
    forall i, line: string | 0 <= i < |backends| ::
      backends[i].answer(line).Some? ==> '\n' !in backends[i].answer(line).value
  }

  lemma LineTextOneLine(terms: seq<string>, backends: seq<Backend>, line: string)
    requires OneLineTerms(terms) && LineByLine(backends) && '\n' !in line
    requires LineText(terms, backends, line).Some?
    ensures '\n' !in LineText(terms, backends, line).value
  {
    if HasLetter(line) {
      var job := ProtectSegment(terms, line);
      FirstAnswerIsFirst(backends, job);
      var i: nat :| AnswersFirst(backends, job, i)
                    && backends[i].answer(job) == Some(FirstAnswer(backends, job).value.text);
      RestoredNoNewline(terms, 12 + |terms|, FirstAnswer(backends, job).value.text);
    } else {
      RestoredNoNewline(terms, 12 + |terms|, line);
    }
  }

  lemma {:induction false} AllLinesOneLine(terms: seq<string>, backends: seq<Backend>, lines: seq<string>)
    requires OneLineTerms(terms) && LineByLine(backends) && forall k | 0 <= k < |lines| :: '\n' !in lines[k]
    requires AllLines(terms, backends, lines).Some?
    ensures var texts := AllLines(terms, backends, lines).value;
            |texts| == |lines| && forall k | 0 <= k < |texts| :: '\n' !in texts[k]
  {
    if lines != [] {
      AllLinesOneLine(terms, backends, lines[..|lines| - 1]);
      LineTextOneLine(terms, backends, lines[|lines| - 1]);
    }
  }

  /** Before the mnemonic is put back, a returned source has the newlines it had. */
  lemma NewlinesKept(terms: seq<string>, backends: seq<Backend>, source: string)
    requires OneLineTerms(terms) && LineByLine(backends)
    requires AllLines(terms, backends, SplitLines(source)).Some?
    ensures Newlines(JoinLines(AllLines(terms, backends, SplitLines(source)).value)) == Newlines(source)
  {
    SplitJoin(source);
    AllLinesOneLine(terms, backends, SplitLines(source));
    JoinedNewlines(AllLines(terms, backends, SplitLines(source)).value);
  }

  // ----- The mnemonic ---------------------------------------------------------

  lemma {:induction false} FirstLetterIsLetter(text: string)
    ensures FirstLetter(text) < |text| ==> IsLetter(text[FirstLetter(text)])
    ensures forall i | 0 <= i < FirstLetter(text) :: !IsLetter(text[i])
  {
    if text != "" && !IsLetter(text[0]) {
      FirstLetterIsLetter(text[1..]);
      assert forall i | 1 <= i < FirstLetter(text) :: text[i] == text[1..][i - 1];
    }
  }

  /** A source with a mnemonic comes back with one: before an ASCII letter if what is
      left without ampersands has one, in front otherwise. */
  lemma MnemonicKept(source: string, translation: string)
    requires HasMnemonic(source)
    ensures var back := RestoreMnemonic(source, translation);
            HasMnemonic(back) || (back != "" && back[0] == '&' && !HasLetter(back))
  {
    if !HasMnemonic(translation) {
      var bare := Text.Trim(WithoutAmpersands(translation));
      var at := FirstLetter(bare);
      FirstLetterIsLetter(bare);
      if at < |bare| {
        var back := bare[..at] + "&" + bare[at..];
        assert back[at] == '&' && IsLetter(back[at + 1]);
      }
    }
  }
}
