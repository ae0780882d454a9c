/** main of tools/translate_ts.py (1038-1152): filling the blank messages of a catalog and
    rewriting the overridden ones. The catalog is the list of its messages, changed in
    place. */
module TranslationFill {
  import opened Outcomes
  import opened Lists
  import opened SentinelRules
  import opened TranslationDriver
  import opened TranslationVerify
  import Text

  datatype Message = Message(source: string, translation: string, kind: Option<string>)

  /** What a run works with: the protected terms, the effective overrides of the target
      language and the backends. */
  datatype Setup = Setup(terms: seq<string>, overrides: map<string, string>, backends: seq<Backend>)

  const VANISHED := "vanished"
  const UNFINISHED := "unfinished"

  predicate IsVanished(message: Message) { message.kind == Some(VANISHED) }

  /** A message the run tries to fill. */
  predicate IsOpen(message: Message) { !IsVanished(message) && IsBlank(message.translation) }

  // ----- What a source gets ---------------------------------------------------

  datatype Candidate = Candidate(text: string, origin: Origin)

  function MachineText(setup: Setup, source: string): Option<string> {
    if setup.backends == [] then None else SourceText(setup.terms, setup.backends, source)
  }

  function CandidateOf(setup: Setup, source: string): Option<Candidate> {
    if IsTokenOnly(source) then None
    else if source in setup.overrides then Some(Candidate(setup.overrides[source], Override))
    else if source in setup.terms then Some(Candidate(source, TermOnly))
    else match MachineText(setup, source) case Some(text) => Some(Candidate(text, Machine)) case None => None
  }

  /** The candidate, if it passes. */
  function Accepted(setup: Setup, source: string): Option<Candidate> {
    match CandidateOf(setup, source)
    case Some(candidate) =>
      if Verify(setup.terms, source, candidate.text, candidate.origin) then Some(candidate) else None
    case None => None
  }

  // ----- What a message becomes -----------------------------------------------

  function FilledWith(message: Message, accepted: Option<Candidate>): Message {
    if !IsOpen(message) then message
    else
      match accepted
      case Some(candidate) => message.(translation := candidate.text, kind := None)
      case None => message.(translation := "", kind := Some(UNFINISHED))
  }

  function Filled(setup: Setup, message: Message): Message {
    FilledWith(message, Accepted(setup, message.source))
  }

  function Rewritten(setup: Setup, message: Message): Message {
    if IsVanished(message) || IsBlank(message.translation) || message.source !in setup.overrides then message
    else
      var text := setup.overrides[message.source];
      if !Verify(setup.terms, message.source, text, Override) || message.translation == text then message
      else message.(translation := text, kind := None)
  }

  function Run(setup: Setup, message: Message): Message { Rewritten(setup, Filled(setup, message)) }

  /** How a message is written, and read by the next run. */
  function Saved(message: Message): Message {
    if IsVanished(message) then message
    else if IsBlank(message.translation) then message.(translation := "", kind := Some(UNFINISHED))
    else message.(kind := None)
  }

  // ----- Fail-closed ----------------------------------------------------------

  /** A text that keeps what the program needs. */
  predicate Keeps(source: string, text: string) {
    && !IsBlank(text)
    && multiset(PlaceholdersOf(text)) == multiset(PlaceholdersOf(source))
    && Newlines(text) == Newlines(source)
  }

  /** A text that may be shipped for a source: the override of the source; or the source
      itself where it is a protected term; or, for any other source, what the backends
      made of it, if that is not the source again, shows no sentinel and keeps the
      protected terms. */
  predicate Shippable(setup: Setup, source: string, text: string) {
    && !IsTokenOnly(source) && Keeps(source, text)
    && if source in setup.overrides then text == setup.overrides[source]
       else if source in setup.terms then text == source
       else
         && MachineText(setup, source) == Some(text)
         && Text.Trim(text) != Text.Trim(source)
         && !HasSurvivor(text)
         && TermsSurvive(setup.terms, source, text)
  }

  /** What a message may become.  A vanished one stays.  An open one gets a shippable text,
      and is left empty and unfinished only if there is none.  Any other one keeps its
      text, unless an override that keeps what the program needs says otherwise. */
  ghost predicate Safe(setup: Setup, was: Message, now: Message) {
    && now.source == was.source
    && (IsVanished(was) ==> now == was)
    && (IsOpen(was) ==>
          if now.translation == "" then
            now.kind == Some(UNFINISHED) && forall text :: !Shippable(setup, was.source, text)
          else now.kind == None && Shippable(setup, was.source, now.translation))
    && (!IsVanished(was) && !IsOpen(was) ==>
          if Overridden(setup, was) then
            now.kind == None && now.translation == setup.overrides[was.source]
          else now == was)
  }

  /** A translation that the overrides replace. */
  predicate Overridden(setup: Setup, was: Message) {
    && was.source in setup.overrides
    && setup.overrides[was.source] != was.translation
    && Keeps(was.source, setup.overrides[was.source])
  }

  lemma AcceptedIsShippable(setup: Setup, source: string)
    ensures match Accepted(setup, source)
            case Some(candidate) => Shippable(setup, source, candidate.text)
            case None => forall text :: !Shippable(setup, source, text)
  {
  }

  /** A run makes of every message what is safe for it. */
  lemma RunIsSafe(setup: Setup, message: Message)
    ensures Safe(setup, message, Run(setup, message))
  {
    AcceptedIsShippable(setup, message.source);
    assert IsBlank("");
    if IsOpen(message) {
      RewriteKeepsFilled(setup, message);
    }
  }

  /** The second pass finds nothing to change in a message that the first one filled. */
  lemma RewriteKeepsFilled(setup: Setup, message: Message)
    requires IsOpen(message)
    ensures Run(setup, message) == Filled(setup, message)
  {
    assert IsBlank("");
  }

  /** A later run with the same backends, or with none, finds nothing to change. */
  lemma SecondRunChangesNothing(setup: Setup, later: Setup, message: Message)
    requires later == setup || later == setup.(backends := [])
    ensures Saved(Run(later, Saved(Run(setup, message)))) == Saved(Run(setup, message))
  {
    var first := Saved(Run(setup, message));
    assert IsBlank("");
    if IsOpen(first) {
      assert IsOpen(message) && Accepted(setup, message.source).None?;
      assert Accepted(later, message.source).None?;
    }
  }

  // ----- Collecting and classifying -------------------------------------------

  function OpenSources(messages: seq<Message>): seq<string> {
    if messages == [] then []
    else
      var last := messages[|messages| - 1];
      OpenSources(messages[..|messages| - 1]) + if IsOpen(last) then [last.source] else []
  }

  method CollectSources(catalog: array<Message>) returns (sources: seq<string>)
    ensures sources == Distinct(OpenSources(catalog[..]))
  {
    sources := [];
    for i := 0 to catalog.Length
      invariant sources == Distinct(OpenSources(catalog[..i]))
    {
      assert catalog[..i + 1][..i] == catalog[..i];
      ghost var before := OpenSources(catalog[..i]);
      if IsOpen(catalog[i]) {
        DistinctAppend(before, catalog[i].source);
        sources := AddedOnce(sources, catalog[i].source);
      } else {
        assert before + [] == before;
      }
    }
    assert catalog[..catalog.Length] == catalog[..];
  }

  /** The sources that are left for the backends. */
  method MachineSources(setup: Setup, sources: seq<string>) returns (rest: seq<string>)
    ensures forall source :: source in rest <==>
              source in sources && !IsTokenOnly(source) && source !in setup.overrides && source !in setup.terms
  {
    rest := [];
    for i := 0 to |sources|
      invariant forall source :: source in rest <==>
                  source in sources[..i] && !IsTokenOnly(source) && source !in setup.overrides && source !in setup.terms
    {
      if !IsTokenOnly(sources[i]) && sources[i] !in setup.overrides && sources[i] !in setup.terms {
        rest := rest + [sources[i]];
      }
    }
    assert sources[..|sources|] == sources;
  }

  /** The machine results hold what the driver returns for the sources left. */
  ghost predicate MachineDone(setup: Setup, sources: seq<string>, result: map<string, string>,
      producer: map<string, string>, source: string) {
    && (source in result <==> source in sources && !IsTokenOnly(source) && source !in setup.overrides
                              && source !in setup.terms && MachineText(setup, source).Some?)
    && (source in result ==> MachineText(setup, source) == Some(result[source]))
    && (source in producer <==> source in result)
    && (source in producer ==> producer[source] == SourceName(setup.terms, setup.backends, source))
  }

  method RunBackends(setup: Setup, sources: seq<string>)
    returns (result: map<string, string>, producer: map<string, string>)
    ensures forall source :: MachineDone(setup, sources, result, producer, source)
  {
    var rest := MachineSources(setup, sources);
    result, producer := map[], map[];
    if setup.backends != [] && rest != [] {
      result, producer := RunMachineTranslation(setup.terms, setup.backends, rest);
      forall source ensures MachineDone(setup, sources, result, producer, source) {
        assert Returned(setup.terms, setup.backends, rest, result, producer, source);
      }
    }
  }

  /** What is accepted for every source that is not only tokens. */
  ghost predicate FinalDone(setup: Setup, sources: seq<string>, final: map<string, Option<Candidate>>, source: string) {
    && (source in final <==> source in sources && !IsTokenOnly(source))
    && (source in final ==> final[source] == Accepted(setup, source))
  }

  /** The candidate from the texts of the backends, if it passes. */
  function Decided(setup: Setup, result: map<string, string>, source: string): Option<Candidate> {
    var candidate :=
      if source in setup.overrides then Some(Candidate(setup.overrides[source], Override))
      else if source in setup.terms then Some(Candidate(source, TermOnly))
      else if source in result then Some(Candidate(result[source], Machine))
      else None;
    if candidate.Some? && Verify(setup.terms, source, candidate.value.text, candidate.value.origin) then candidate
    else None
  }

  lemma DecidedIsAccepted(setup: Setup, sources: seq<string>, result: map<string, string>,
      producer: map<string, string>, source: string)
    requires source in sources && !IsTokenOnly(source) && MachineDone(setup, sources, result, producer, source)
    ensures Decided(setup, result, source) == Accepted(setup, source)
  {
  }

  lemma FinalMore(setup: Setup, done: seq<string>, source: string, was: map<string, Option<Candidate>>,
      final: map<string, Option<Candidate>>)
    requires forall other :: FinalDone(setup, done, was, other)
    requires final == if IsTokenOnly(source) then was else was[source := Accepted(setup, source)]
    ensures forall other :: FinalDone(setup, done + [source], final, other)
  {
    forall other ensures FinalDone(setup, done + [source], final, other) {
      assert FinalDone(setup, done, was, other);
    }
  }

  method Finalise(setup: Setup, sources: seq<string>, result: map<string, string>, ghost producer: map<string, string>)
    returns (final: map<string, Option<Candidate>>)
    requires forall source :: MachineDone(setup, sources, result, producer, source)
    ensures forall source :: FinalDone(setup, sources, final, source)
  {
    final := map[];
    for i := 0 to |sources|
      invariant forall source :: FinalDone(setup, sources[..i], final, source)
    {
      var source := sources[i];
      ghost var done, was := sources[..i], final;
      if !IsTokenOnly(source) {
        DecidedIsAccepted(setup, sources, result, producer, source);
        final := final[source := Decided(setup, result, source)];
      }
      assert sources[..i + 1] == done + [source];
      FinalMore(setup, done, source, was, final);
    }
    assert sources[..|sources|] == sources;
  }
}
