/** run_machine_translation of tools/translate_ts.py (860-927): the lines of all sources
    through a chain of backends, in batches, each line once. A backend is a partial
    function on lines. */
module TranslationDriver {
  import opened Outcomes
  import opened Lists
  import opened SentinelRules
  import Text

  datatype Backend = Backend(name: string, answer: string -> Option<string>)

  datatype Answer = Answer(text: string, backend: string)

  predicate IsLetter(c: char) { 'a' <= c <= 'z' || 'A' <= c <= 'Z' }

  predicate HasLetter(text: string) {
    exists i | 0 <= i < |text| :: IsLetter(text[i])
  }

  // ----- Lines ----------------------------------------------------------------

  /** str.split("\n"), and join. */
  function SplitLines(text: string): (lines: seq<string>)
    ensures lines != []
  {
    if text == "" then [""]
    else
      var lines := SplitLines(text[..|text| - 1]);
      var c := text[|text| - 1];
      if c == '\n' then lines + [""] else lines[..|lines| - 1] + [lines[|lines| - 1] + [c]]
  }

  function JoinLines(lines: seq<string>): string {
    if lines == [] then ""
    else if |lines| == 1 then lines[0]
    else JoinLines(lines[..|lines| - 1]) + "\n" + lines[|lines| - 1]
  }

  function Newlines(text: string): nat {
    if text == "" then 0 else Newlines(text[..|text| - 1]) + if text[|text| - 1] == '\n' then 1 else 0
  }

  // ----- What a source should come back as ------------------------------------

  /** The answer of the first backend that has one. */
  function FirstAnswer(backends: seq<Backend>, line: string): Option<Answer> {
    if backends == [] then None
    else
      var last := backends[|backends| - 1];
      match FirstAnswer(backends[..|backends| - 1], line)
      case Some(answer) => Some(answer)
      case None => match last.answer(line) case Some(text) => Some(Answer(text, last.name)) case None => None
  }

  /** A line after translation: lines without a letter are not sent away. */
  function LineText(terms: seq<string>, backends: seq<Backend>, line: string): Option<string> {
    if !HasLetter(line) then Some(RestoreSegment(terms, line))
    else
      match FirstAnswer(backends, ProtectSegment(terms, line))
      case Some(answer) => Some(RestoreSegment(terms, answer.text))
      case None => None
  }

  /** All lines, or nothing. */
  function AllLines(terms: seq<string>, backends: seq<Backend>, lines: seq<string>): Option<seq<string>> {
    if lines == [] then Some([])
    else
      match AllLines(terms, backends, lines[..|lines| - 1])
      case None => None
      case Some(before) =>
        match LineText(terms, backends, lines[|lines| - 1])
        case None => None
        case Some(text) => Some(before + [text])
  }

  /** The backend that answered the first line sent away. */
  function FirstName(terms: seq<string>, backends: seq<Backend>, lines: seq<string>): Option<string> {
    if lines == [] then None
    else
      var line := lines[|lines| - 1];
      match FirstName(terms, backends, lines[..|lines| - 1])
      case Some(name) => Some(name)
      case None =>
        if !HasLetter(line) then None
        else
          match FirstAnswer(backends, ProtectSegment(terms, line))
          case Some(answer) => Some(answer.backend)
          case None => None
  }

  // ----- Mnemonics ------------------------------------------------------------

  predicate HasMnemonic(text: string) {
    exists i | 0 <= i < |text| - 1 :: text[i] == '&' && IsLetter(text[i + 1])
  }

  function WithoutAmpersands(text: string): string {
    if text == "" then ""
    else (if text[0] == '&' then "" else [text[0]]) + WithoutAmpersands(text[1..])
  }

  /** Where the first letter stands, or the length. */
  function FirstLetter(text: string): (i: nat)
    ensures i <= |text|
  {
    if text == "" || IsLetter(text[0]) then 0 else 1 + FirstLetter(text[1..])
  }

  function RestoreMnemonic(source: string, translation: string): string {
    if !HasMnemonic(source) || HasMnemonic(translation) then translation
    else
      var bare := Text.Trim(WithoutAmpersands(translation));
      var at := FirstLetter(bare);
      if at < |bare| then bare[..at] + "&" + bare[at..] else "&" + bare
  }

  function SourceText(terms: seq<string>, backends: seq<Backend>, source: string): Option<string> {
    match AllLines(terms, backends, SplitLines(source))
    case None => None
    case Some(lines) => Some(RestoreMnemonic(source, JoinLines(lines)))
  }

  function SourceName(terms: seq<string>, backends: seq<Backend>, source: string): string {
    match FirstName(terms, backends, SplitLines(source))
    case Some(name) => name
    case None => "machine"
  }

  // ----- The driver -----------------------------------------------------------

  /** The letter-bearing lines in protected form. */
  function Jobs(terms: seq<string>, lines: seq<string>): seq<string> {
    if lines == [] then []
    else
      var line := lines[|lines| - 1];
      Jobs(terms, lines[..|lines| - 1]) + if HasLetter(line) then [ProtectSegment(terms, line)] else []
  }

  method TranslateLines(backend: Backend, batch: seq<string>) returns (result: map<string, string>)
    ensures forall line :: line in result <==> line in batch && backend.answer(line).Some?
    ensures forall line | line in result :: backend.answer(line) == Some(result[line])
  {
    result := map[];
    for i := 0 to |batch|
      invariant forall line :: line in result <==> line in batch[..i] && backend.answer(line).Some?
      invariant forall line | line in result :: backend.answer(line) == Some(result[line])
    {
      match backend.answer(batch[i])
      case Some(text) => result := result[batch[i] := text];
      case None =>
    }
    assert batch[..|batch|] == batch;
  }

  /** One backend over the remaining lines, in batches. */
  method TranslateBatches(backend: Backend, remaining: seq<string>) returns (got: map<string, string>)
    ensures forall line :: line in got <==> line in remaining && backend.answer(line).Some?
    ensures forall line | line in got :: backend.answer(line) == Some(got[line])
  {
    var batchSize := 25;
    got := map[];
    var start := 0;
    while start < |remaining|
      invariant start <= |remaining|
      invariant forall line :: line in got <==> line in remaining[..start] && backend.answer(line).Some?
      invariant forall line | line in got :: backend.answer(line) == Some(got[line])
    {
      var end := if start + batchSize <= |remaining| then start + batchSize else |remaining|;
      var more := TranslateLines(backend, remaining[start..end]);
      got := got + more;
      assert remaining[..end] == remaining[..start] + remaining[start..end];
      start := end;
    }
    assert remaining[..start] == remaining;
  }

  /** What the chain has found for one line after the first backends. */
  ghost predicate Found(backends: seq<Backend>, jobs: seq<string>, texts: map<string, string>,
      names: map<string, string>, line: string) {
    && (line in texts <==> line in jobs && FirstAnswer(backends, line).Some?)
    && (line in names <==> line in texts)
    && (line in texts && line in names ==> FirstAnswer(backends, line) == Some(Answer(texts[line], names[line])))
  }

  lemma FirstAnswerMore(backends: seq<Backend>, backend: Backend, line: string)
    ensures FirstAnswer(backends + [backend], line)
            == match FirstAnswer(backends, line)
               case Some(answer) => Some(answer)
               case None => match backend.answer(line)
                            case Some(text) => Some(Answer(text, backend.name))
                            case None => None
  {
    assert (backends + [backend])[..|backends|] == backends;
  }

  function Named(lines: set<string>, name: string): map<string, string> {
    map line | line in lines :: name
  }

  /** The lines left for the next backend. */
  method Unanswered(remaining: seq<string>, texts: map<string, string>) returns (left: seq<string>)
    ensures forall line :: line in left <==> line in remaining && line !in texts
  {
    left := [];
    for i := 0 to |remaining|
      invariant forall line :: line in left <==> line in remaining[..i] && line !in texts
    {
      if remaining[i] !in texts {
        left := left + [remaining[i]];
      }
    }
    assert remaining[..|remaining|] == remaining;
  }

  lemma FoundMore(backends: seq<Backend>, backend: Backend, jobs: seq<string>, texts: map<string, string>,
      names: map<string, string>, got: map<string, string>, line: string)
    requires Found(backends, jobs, texts, names, line)
    requires line in got <==> line in jobs && line !in texts && backend.answer(line).Some?
    requires line in got ==> backend.answer(line) == Some(got[line])
    ensures Found(backends + [backend], jobs, texts + got, names + Named(got.Keys, backend.name), line)
  {
    FirstAnswerMore(backends, backend, line);
  }

  /** The fallback chain: every line keeps the first answer it gets. */
  method TranslateJobs(backends: seq<Backend>, jobs: seq<string>)
    returns (texts: map<string, string>, names: map<string, string>)
    ensures forall line :: Found(backends, jobs, texts, names, line)
  {
    texts, names := map[], map[];
    var remaining := jobs;
    var i := 0;
    while i < |backends|
      invariant i <= |backends|
      invariant forall line :: Found(backends[..i], jobs, texts, names, line)
      invariant forall line :: line in remaining <==> line in jobs && line !in texts
    {
      if remaining == [] {
        NothingLeft(backends, i, jobs, texts, names);
        return;
      }
      var got := TranslateBatches(backends[i], remaining);
      ghost var before, after := backends[..i], backends[..i + 1];
      assert after == before + [backends[i]];
      forall line ensures Found(after, jobs, texts + got, names + Named(got.Keys, backends[i].name), line) {
        assert Found(before, jobs, texts, names, line);
        FoundMore(before, backends[i], jobs, texts, names, got, line);
      }
      texts, names := texts + got, names + Named(got.Keys, backends[i].name);
      remaining := Unanswered(remaining, texts);
      i := i + 1;
    }
    assert backends[..i] == backends;
  }

  lemma {:induction false} AnswerStays(backends: seq<Backend>, i: nat, line: string)
    requires i <= |backends| && FirstAnswer(backends[..i], line).Some?
    ensures FirstAnswer(backends, line) == FirstAnswer(backends[..i], line)
    decreases |backends|
  {
    if i < |backends| {
      var before := backends[..|backends| - 1];
      assert before[..i] == backends[..i];
      AnswerStays(before, i, line);
    } else {
      assert backends[..i] == backends;
    }
  }

  lemma NothingLeft(backends: seq<Backend>, i: nat, jobs: seq<string>, texts: map<string, string>,
      names: map<string, string>)
    requires i <= |backends| && forall line :: Found(backends[..i], jobs, texts, names, line)
    requires forall line :: line in jobs ==> line in texts
    ensures forall line :: Found(backends, jobs, texts, names, line)
  {
    forall line ensures Found(backends, jobs, texts, names, line) {
      assert Found(backends[..i], jobs, texts, names, line);
      if line in texts {
        AnswerStays(backends, i, line);
      }
    }
  }

  /** All jobs of the sources, in order. */
  function AllJobs(terms: seq<string>, sources: seq<string>): seq<string> {
    if sources == [] then []
    else AllJobs(terms, sources[..|sources| - 1]) + Jobs(terms, SplitLines(sources[|sources| - 1]))
  }

  lemma JobsMore(terms: seq<string>, lines: seq<string>, line: string)
    ensures Jobs(terms, lines + [line])
            == Jobs(terms, lines) + if HasLetter(line) then [ProtectSegment(terms, line)] else []
  {
    assert (lines + [line])[..|lines|] == lines;
  }

  lemma OneMoreJob(before: seq<string>, mine: seq<string>, job: string, more: seq<string>)
    requires more == mine + [job]
    ensures Distinct(before + more) == AddedOnce(Distinct(before + mine), job)
  {
    DistinctAppend(before + mine, job);
    assert before + more == (before + mine) + [job];
  }

  lemma NoMoreJob(mine: seq<string>, more: seq<string>)
    requires more == mine + []
    ensures more == mine
  {
  }

  lemma JobStep(terms: seq<string>, before: seq<string>, done: seq<string>, line: string, jobs: seq<string>)
    requires jobs == Distinct(before + Jobs(terms, done))
    ensures Distinct(before + Jobs(terms, done + [line]))
            == if HasLetter(line) then AddedOnce(jobs, ProtectSegment(terms, line)) else jobs
  {
    JobsMore(terms, done, line);
    if HasLetter(line) {
      OneMoreJob(before, Jobs(terms, done), ProtectSegment(terms, line), Jobs(terms, done + [line]));
    } else {
      NoMoreJob(Jobs(terms, done), Jobs(terms, done + [line]));
    }
  }

  /** Identical protected lines are one job. */
  method CollectJobs(terms: seq<string>, sources: seq<string>) returns (jobs: seq<string>)
    ensures jobs == Distinct(AllJobs(terms, sources))
  {
    jobs := [];
    for i := 0 to |sources|
      invariant jobs == Distinct(AllJobs(terms, sources[..i]))
    {
      assert sources[..i + 1][..i] == sources[..i];
      var lines := SplitLines(sources[i]);
      ghost var before := AllJobs(terms, sources[..i]);
      assert before + Jobs(terms, lines[..0]) == before;
      for k := 0 to |lines|
        invariant jobs == Distinct(before + Jobs(terms, lines[..k]))
      {
        assert lines[..k + 1] == lines[..k] + [lines[k]];
        JobStep(terms, before, lines[..k], lines[k], jobs);
        if HasLetter(lines[k]) {
          jobs := AddedOnce(jobs, ProtectSegment(terms, lines[k]));
        }
      }
      assert lines[..|lines|] == lines;
    }
    assert sources[..|sources|] == sources;
  }

  lemma {:induction false} JobOfLine(terms: seq<string>, lines: seq<string>, k: nat)
    requires k < |lines| && HasLetter(lines[k])
    ensures ProtectSegment(terms, lines[k]) in Jobs(terms, lines)
  {
    if k < |lines| - 1 {
      JobOfLine(terms, lines[..|lines| - 1], k);
    }
  }

  lemma {:induction false} JobOfSource(terms: seq<string>, sources: seq<string>, i: nat, k: nat)
    requires i < |sources| && k < |SplitLines(sources[i])| && HasLetter(SplitLines(sources[i])[k])
    ensures ProtectSegment(terms, SplitLines(sources[i])[k]) in AllJobs(terms, sources)
  {
    if i < |sources| - 1 {
      JobOfSource(terms, sources[..|sources| - 1], i, k);
    } else {
      JobOfLine(terms, SplitLines(sources[i]), k);
    }
  }

  // ----- Putting a source together --------------------------------------------

  lemma AllLinesMore(terms: seq<string>, backends: seq<Backend>, lines: seq<string>, line: string)
    ensures AllLines(terms, backends, lines + [line])
            == match AllLines(terms, backends, lines)
               case None => None
               case Some(before) => match LineText(terms, backends, line)
                                    case None => None
                                    case Some(text) => Some(before + [text])
  {
    assert (lines + [line])[..|lines|] == lines;
  }

  lemma FirstNameMore(terms: seq<string>, backends: seq<Backend>, lines: seq<string>, line: string)
    ensures FirstName(terms, backends, lines + [line])
            == match FirstName(terms, backends, lines)
               case Some(name) => Some(name)
               case None =>
                 if !HasLetter(line) then None
                 else match FirstAnswer(backends, ProtectSegment(terms, line))
                      case Some(answer) => Some(answer.backend)
                      case None => None
  {
    assert (lines + [line])[..|lines|] == lines;
  }

  lemma {:induction false} LineMissing(terms: seq<string>, backends: seq<Backend>, lines: seq<string>, k: nat)
    requires k <= |lines| && AllLines(terms, backends, lines[..k]).None?
    ensures AllLines(terms, backends, lines).None?
    decreases |lines|
  {
    if k < |lines| {
      var before := lines[..|lines| - 1];
      assert before[..k] == lines[..k];
      LineMissing(terms, backends, before, k);
    } else {
      assert lines[..k] == lines;
    }
  }

  method Reassemble(terms: seq<string>, source: string, texts: map<string, string>, names: map<string, string>,
      ghost backends: seq<Backend>, ghost jobs: seq<string>) returns (text: Option<string>, name: string)
    requires forall line :: Found(backends, jobs, texts, names, line)
    requires forall k | 0 <= k < |SplitLines(source)| && HasLetter(SplitLines(source)[k]) ::
               ProtectSegment(terms, SplitLines(source)[k]) in jobs
    ensures text == SourceText(terms, backends, source)
    ensures text.Some? ==> name == SourceName(terms, backends, source)
  {
    var lines := SplitLines(source);
    var restored, labels: seq<string> := [], [];
    for k := 0 to |lines|
      invariant AllLines(terms, backends, lines[..k]) == Some(restored)
      invariant FirstName(terms, backends, lines[..k]) == if labels == [] then None else Some(labels[0])
    {
      assert lines[..k + 1] == lines[..k] + [lines[k]];
      AllLinesMore(terms, backends, lines[..k], lines[k]);
      FirstNameMore(terms, backends, lines[..k], lines[k]);
      if HasLetter(lines[k]) {
        var job := ProtectSegment(terms, lines[k]);
        assert Found(backends, jobs, texts, names, job);
        if job in texts {
          restored := restored + [RestoreSegment(terms, texts[job])];
          labels := labels + [names[job]];
        } else {
          LineMissing(terms, backends, lines, k + 1);
          return None, "";
        }
      } else {
        restored := restored + [RestoreSegment(terms, lines[k])];
      }
    }
    assert lines[..|lines|] == lines;
    text := Some(RestoreMnemonic(source, JoinLines(restored)));
    name := if labels == [] then "machine" else labels[0];
  }

  /** What the driver returns for one source. */
  ghost predicate Returned(terms: seq<string>, backends: seq<Backend>, sources: seq<string>,
      result: map<string, string>, producer: map<string, string>, source: string) {
    && (source in result <==> source in sources && SourceText(terms, backends, source).Some?)
    && (source in producer <==> source in result)
    && (source in result && source in producer ==>
          Some(result[source]) == SourceText(terms, backends, source)
          && producer[source] == SourceName(terms, backends, source))
  }

  lemma JobsOfSource(terms: seq<string>, sources: seq<string>, i: nat, jobs: seq<string>)
    requires i < |sources| && jobs == Distinct(AllJobs(terms, sources))
    ensures forall k | 0 <= k < |SplitLines(sources[i])| && HasLetter(SplitLines(sources[i])[k]) ::
              ProtectSegment(terms, SplitLines(sources[i])[k]) in jobs
  {
    AddedUniqueMeaning([], AllJobs(terms, sources));
    forall k | 0 <= k < |SplitLines(sources[i])| && HasLetter(SplitLines(sources[i])[k])
      ensures ProtectSegment(terms, SplitLines(sources[i])[k]) in jobs
    {
      JobOfSource(terms, sources, i, k);
    }
  }

  ghost predicate AllReturned(terms: seq<string>, backends: seq<Backend>, sources: seq<string>,
      result: map<string, string>, producer: map<string, string>) {
    forall source :: Returned(terms, backends, sources, result, producer, source)
  }

  /** One source more, with a text or without. */
  lemma ReturnedMore(terms: seq<string>, backends: seq<Backend>, sources: seq<string>, i: nat,
      was: map<string, string>, whose: map<string, string>, result: map<string, string>, producer: map<string, string>)
    requires i < |sources| && AllReturned(terms, backends, sources[..i], was, whose)
    requires SourceText(terms, backends, sources[i]).Some?
    requires result == was[sources[i] := SourceText(terms, backends, sources[i]).value]
    requires producer == whose[sources[i] := SourceName(terms, backends, sources[i])]
    ensures AllReturned(terms, backends, sources[..i + 1], result, producer)
  {
    var done, now := sources[..i], sources[..i + 1];
    assert now == done + [sources[i]];
    forall other ensures Returned(terms, backends, now, result, producer, other) {
      assert Returned(terms, backends, done, was, whose, other);
    }
  }

  lemma ReturnedSame(terms: seq<string>, backends: seq<Backend>, sources: seq<string>, i: nat,
      result: map<string, string>, producer: map<string, string>)
    requires i < |sources| && AllReturned(terms, backends, sources[..i], result, producer)
    requires SourceText(terms, backends, sources[i]).None?
    ensures AllReturned(terms, backends, sources[..i + 1], result, producer)
  {
    var done, now := sources[..i], sources[..i + 1];
    assert now == done + [sources[i]];
    forall other ensures Returned(terms, backends, now, result, producer, other) {
      assert Returned(terms, backends, done, result, producer, other);
    }
  }

  method RunMachineTranslation(terms: seq<string>, backends: seq<Backend>, sources: seq<string>)
    returns (result: map<string, string>, producer: map<string, string>)
    ensures forall source :: Returned(terms, backends, sources, result, producer, source)
  {
    result, producer := map[], map[];
    var jobs := CollectJobs(terms, sources);
    var texts, names := TranslateJobs(backends, jobs);
    for i := 0 to |sources|
      invariant AllReturned(terms, backends, sources[..i], result, producer)
    {
      var source := sources[i];
      JobsOfSource(terms, sources, i, jobs);
      var text, name := Reassemble(terms, source, texts, names, backends, jobs);
      ghost var was, whose := result, producer;
      if text.Some? {
        result, producer := result[source := text.value], producer[source := name];
        ReturnedMore(terms, backends, sources, i, was, whose, result, producer);
      } else {
        ReturnedSame(terms, backends, sources, i, result, producer);
      }
    }
    assert sources[..|sources|] == sources;
  }
}
