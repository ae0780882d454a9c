/** What the capability cache grants, told from the history of calls alone. */
module CapabilityHistory {
  import opened Outcomes
  import opened LegacyText
  import opened Lists
  import opened Transcript
  import opened CapabilityModel

  // ----- The parts of a step --------------------------------------------------

  lemma {:induction false} AssignedIsLast(pairs: seq<Pair>, key: string)
    ensures key in Assigned(map[], pairs) <==> LastValue(pairs, key).Some?
    ensures key in Assigned(map[], pairs) ==> LastValue(pairs, key) == Some(Assigned(map[], pairs)[key])
  {
    if pairs != [] {
      AssignedIsLast(pairs[..|pairs| - 1], key);
    }
  }

  predicate SomeInvalidates(pairs: seq<Pair>) {
    exists i | 0 <= i < |pairs| :: Invalidates(pairs[i].1)
  }

  /** The keys of the statuses that invalidate, in order. */
  function InvalidatingOf(pairs: seq<Pair>): seq<string> {
    if pairs == [] then []
    else
      var last := pairs[|pairs| - 1];
      InvalidatingOf(pairs[..|pairs| - 1]) + if Invalidates(last.1) then [last.0] else []
  }

  lemma {:induction false} AllNotedEffect(m: Model, pairs: seq<Pair>, seen: seq<string>)
    requires m.invalidatingKeys == Distinct(seen)
    ensures var n := AllNoted(m, pairs);
            && n.identity == m.identity && n.ran == m.ran && n.capabilities == m.capabilities
            && n.stale == (m.stale || SomeInvalidates(pairs))
            && n.invalidatingKeys == Distinct(seen + InvalidatingOf(pairs))
  {
    if pairs == [] {
      assert seen + [] == seen;
    } else {
      var init, last := pairs[..|pairs| - 1], pairs[|pairs| - 1];
      AllNotedEffect(m, init, seen);
      assert SomeInvalidates(pairs) <==> SomeInvalidates(init) || Invalidates(last.1);
      if Invalidates(last.1) {
        DistinctAppend(seen + InvalidatingOf(init), last.0);
        assert seen + InvalidatingOf(pairs) == seen + InvalidatingOf(init) + [last.0];
      } else {
        assert InvalidatingOf(pairs) == InvalidatingOf(init);
      }
    }
  }

  // ----- Availability ---------------------------------------------------------

  predicate Invalidating(e: Event) {
    match e
    case Note(_, status) => Invalidates(status)
    case Command(text) => SomeInvalidates(ParsedText(text).changeStatuses)
    case _ => false
  }

  /** Takes away every grant made before. */
  predicate Voids(e: Event) {
    e.Reset? || e.ClearRepair? || e.Diagnose? || Invalidating(e)
  }

  /** A diagnostic run that succeeded, printed capability lines, and whose last line
      for the key says exactly "available". */
  predicate Grants(e: Event, key: string) {
    && e.Diagnose? && e.processOk
    && ParsedText(e.text).capabilities != []
    && LastValue(ParsedText(e.text).capabilities, key) == Some("available")
  }

  ghost predicate UnlockedBy(events: seq<Event>, d: nat, key: string) {
    && d < |events| && Grants(events[d], key)
    && forall i | d < i < |events| :: !Voids(events[i])
  }

  /** The scope the last relabelling call named. */
  function Identity(events: seq<Event>): string {
    if events == [] then ""
    else match events[|events| - 1]
      case Reset => ""
      case Begin(identity) => identity
      case Diagnose(identity, _, _) => identity
      case _ => Identity(events[..|events| - 1])
  }

  /** The invalidating keys since the last reset, with repetitions. */
  function Invalidations(events: seq<Event>): seq<string> {
    if events == [] then []
    else
      var before := Invalidations(events[..|events| - 1]);
      match events[|events| - 1]
      case Reset => []
      case Note(key, status) => before + InvalidatingOf([(key, status)])
      case Command(text) => before + InvalidatingOf(ParsedText(text).changeStatuses)
      case _ => before
  }

  /** In every reachable state the scope is the one named last. */
  lemma {:induction false} RunEffect(events: seq<Event>)
    ensures Run(events).identity == Identity(events)
    ensures Run(events).invalidatingKeys == Distinct(Invalidations(events))
  {
    if events != [] {
      var init, e := events[..|events| - 1], events[|events| - 1];
      RunEffect(init);
      match e
      case Note(key, status) =>
        NotedIsAllNoted(Run(init), key, status);
        AllNotedEffect(Run(init), [(key, status)], Invalidations(init));
      case Command(text) =>
        AllNotedEffect(Run(init), ParsedText(text).changeStatuses, Invalidations(init));
      case _ =>
    }
  }

  /** In every reachable state the invalidating keys are those of the history since
      the last reset, each once, in the order they were first seen. */
  lemma InvalidatingKeysExact(events: seq<Event>)
    ensures var keys, all := Run(events).invalidatingKeys, Invalidations(events);
            && (forall key :: key in keys <==> key in all)
            && NoRepeats(keys)
            && forall i, j | 0 <= i < j < |keys| ::
                 keys[i] in all && keys[j] in all && FirstIndex(all, keys[i]) < FirstIndex(all, keys[j])
  {
    RunEffect(events);
    DistinctMeaning(Invalidations(events));
    AddedUniqueMeaning([], Invalidations(events));
  }

  lemma NotedIsAllNoted(m: Model, key: string, status: string)
    ensures Noted(m, key, status) == AllNoted(m, [(key, status)])
  {
    var pairs := [(key, status)];
    assert pairs[..|pairs| - 1] == [];
    assert AllNoted(m, pairs[..|pairs| - 1]) == m;
  }

  /** The state holds a usable "available" line for the key. */
  predicate Live(m: Model, key: string) {
    m.ran && !m.stale && key in m.capabilities && m.capabilities[key] == "available"
  }

  /** One call keeps a grant, makes one, or takes it away. */
  lemma LiveStep(m: Model, seen: seq<string>, e: Event, key: string)
    requires m.invalidatingKeys == Distinct(seen)
    ensures Live(Step(m, e), key) <==> Grants(e, key) || (Live(m, key) && !Voids(e))
  {
    match e
    case Diagnose(_, text, _) =>
      AssignedIsLast(ParsedText(text).capabilities, key);
    case Note(k, status) =>
      NotedIsAllNoted(m, k, status);
      AllNotedEffect(m, [(k, status)], seen);
      assert SomeInvalidates([(k, status)]) <==> Invalidates(status) by {
        assert [(k, status)][0].1 == status;
      }
    case Command(text) =>
      AllNotedEffect(m, ParsedText(text).changeStatuses, seen);
    case _ =>
  }

  ghost predicate Unlocked(events: seq<Event>, key: string) {
    exists d: nat :: UnlockedBy(events, d, key)
  }

  lemma UnlockedStep(events: seq<Event>, e: Event, key: string)
    ensures Unlocked(events + [e], key) <==> Grants(e, key) || (Unlocked(events, key) && !Voids(e))
  {
    var more := events + [e];
    if d: nat :| UnlockedBy(more, d, key) {
      if d < |events| {
        assert forall i | d < i < |events| :: more[i] == events[i];
        assert UnlockedBy(events, d, key);
        assert !Voids(more[|events|]);
      }
    }
    if Grants(e, key) {
      assert UnlockedBy(more, |events|, key);
    } else if Unlocked(events, key) && !Voids(e) {
      var d: nat :| UnlockedBy(events, d, key);
      assert UnlockedBy(more, d, key);
    }
  }

  lemma LiveMore(events: seq<Event>, e: Event, key: string)
    ensures Live(Run(events + [e]), key) <==> Grants(e, key) || (Live(Run(events), key) && !Voids(e))
  {
    assert (events + [e])[..|events|] == events;
    RunEffect(events);
    LiveStep(Run(events), Invalidations(events), e, key);
  }

  lemma {:induction false} LiveIff(events: seq<Event>, key: string)
    ensures Live(Run(events), key) <==> Unlocked(events, key)
  {
    if events != [] {
      var init, e := events[..|events| - 1], events[|events| - 1];
      LiveIff(init, key);
      assert init + [e] == events;
      LiveMore(init, e, key);
      UnlockedStep(init, e, key);
    }
  }

  /** Over every history of calls: a key is available for a scope exactly when it is
      a known key, the scope is the one named last, and some successful diagnostic
      run granted the key and no later call took it away. */
  lemma AvailableIff(events: seq<Event>, key: string, identity: string)
    ensures IsAvailable(Run(events), key, identity)
            <==> && key in CapabilityKeys()
                 && Identity(events) == identity
                 && Unlocked(events, key)
  {
    LiveIff(events, key);
    RunEffect(events);
  }

  // ----- Evidence and its own scope -------------------------------------------

  /** The scope named by the last beginDiagnostics call after run d, if any. */
  function Relabelled(events: seq<Event>, d: nat): Option<string>
    decreases |events|
  {
    if |events| <= d + 1 then None
    else match events[|events| - 1]
      case Begin(identity) => Some(identity)
      case _ => Relabelled(events[..|events| - 1], d)
  }

  lemma {:induction false} IdentityAfter(events: seq<Event>, d: nat, key: string)
    requires UnlockedBy(events, d, key)
    ensures Identity(events) == match Relabelled(events, d) case Some(id) => id case None => events[d].identity
    decreases |events|
  {
    var last := |events| - 1;
    if d < last {
      assert !Voids(events[last]);
      var init := events[..last];
      assert UnlockedBy(init, d, key);
      IdentityAfter(init, d, key);
    }
  }

  /** Evidence that a run gathered unlocks exactly one scope: that of the last
      beginDiagnostics call since then if there was one, and its own otherwise. */
  lemma UnlockedScope(events: seq<Event>, d: nat, key: string, identity: string)
    requires key in CapabilityKeys() && UnlockedBy(events, d, key)
    ensures IsAvailable(Run(events), key, identity)
            <==> identity == match Relabelled(events, d) case Some(id) => id case None => events[d].identity
  {
    IdentityAfter(events, d, key);
    assert Unlocked(events, key);
    AvailableIff(events, key, identity);
  }

  /** The exception is real: beginDiagnostics relabels a scope without clearing its
      evidence, so what one scope's run granted is available for another. */
  lemma RelabelUnlocksOtherScope(a: string, b: string, text: string, key: string)
    requires key in CapabilityKeys() && Grants(Diagnose(a, text, true), key)
    ensures IsAvailable(Run([Diagnose(a, text, true), Begin(b)]), key, b)
  {
    var events := [Diagnose(a, text, true), Begin(b)];
    assert UnlockedBy(events, 0, key);
    AvailableIff(events, key, b);
  }

  lemma {:induction false} OneLineText(line: string)
    requires '\n' !in line && '\r' !in line
    ensures EndedLines(line) == [] && OpenLine(line) == line
  {
    if line != "" {
      OneLineText(line[..|line| - 1]);
    }
  }

  lemma OneLineExample(line: string, c: char)
    requires line == "Repair tool grub: available" && IsBlank(c) && c != ' '
    ensures c !in line
  {
  }

  /** The line that says that a tool is available. */
  lemma AvailableLine(line: string, key: string, value: string)
    requires ValidKey(key) && value != "" && Trim(value) == value
    requires line == "Repair tool " + key + ": " + value
    ensures Classify(line) == Capability((key, value))
  {
    var rest := key + ": " + value;
    assert line == "Repair tool " + rest;
    assert line[12..] == rest && rest[..|key|] == key && rest[|key| + 2..] == value;
    assert line[12 + |key|] == rest[|key|] && line[12 + |key| + 1] == rest[|key| + 1];
    CapabilityIff(line, key, value);
  }

  lemma GrubLine(line: string)
    requires line == "Repair tool grub: available"
    ensures Trim(line) == line && Classify(line) == Capability(("grub", "available"))
  {
    var value := "available";
    assert Trim(value) == value;
    assert line == "Repair tool " + "grub" + ": " + value;
    AvailableLine(line, "grub", value);
  }

  lemma GrubText(text: string)
    requires text == "Repair tool grub: available"
    ensures ParsedText(text).capabilities == [("grub", "available")]
  {
    GrubLine(text);
    OneLineExample(text, '\n');
    OneLineExample(text, '\r');
    OneLineText(text);
    assert Lines(text) == [text] && [text][..0] == [];
    assert ParsedLines([text]) == ParsedLines([]).With(Capability(("grub", "available")));
  }

  /** A run in scope "host" that printed one line, and then a new scope named "target":
      the tool is available for the target. */
  lemma RelabelExample()
    ensures var events := [Diagnose("host", "Repair tool grub: available", true), Begin("target")];
            IsAvailable(Run(events), "grub", "target")
  {
    var text := "Repair tool grub: available";
    GrubText(text);
    var pairs := ParsedText(text).capabilities;
    assert LastValue(pairs, "grub") == Some("available");
    assert CapabilityKeys()[13] == "grub";
    RelabelUnlocksOtherScope("host", "target", text, "grub");
  }

  predicate DisciplinedAt(events: seq<Event>, i: nat)
    requires i < |events|
  {
    events[i].Begin? ==> (i > 0 && events[i - 1].Reset?) || events[i].identity == Identity(events[..i])
  }

  /** Every beginDiagnostics call follows a reset or repeats the current scope. */
  ghost predicate Disciplined(events: seq<Event>) {
    forall i | 0 <= i < |events| :: DisciplinedAt(events, i)
  }

  lemma {:induction false} DisciplinedIdentity(events: seq<Event>, d: nat, key: string)
    requires Disciplined(events) && UnlockedBy(events, d, key)
    ensures Identity(events) == events[d].identity
    decreases |events|
  {
    var last := |events| - 1;
    if d < last {
      var init := events[..last];
      forall i | 0 <= i < |init| ensures DisciplinedAt(init, i) {
        assert DisciplinedAt(events, i) && events[..i] == init[..i];
      }
      assert DisciplinedAt(events, last);
      assert UnlockedBy(init, d, key);
      DisciplinedIdentity(init, d, key);
      assert !Voids(events[last]);
      if events[last].Begin? {
        assert d < last - 1 ==> !Voids(events[last - 1]);
        assert !events[last - 1].Reset?;
      }
    }
  }

  /** In a disciplined history the gate is exactly the promise: a key is available
      for a scope when the latest diagnostic run was for that scope and granted it,
      and nothing since took it away. */
  lemma DisciplinedAvailableIff(events: seq<Event>, key: string, identity: string)
    requires Disciplined(events)
    ensures IsAvailable(Run(events), key, identity)
            <==> && key in CapabilityKeys()
                 && exists d: nat :: UnlockedBy(events, d, key) && events[d].identity == identity
  {
    AvailableIff(events, key, identity);
    forall d: nat | UnlockedBy(events, d, key) ensures events[d].identity == Identity(events) {
      DisciplinedIdentity(events, d, key);
    }
  }
}
