/** What a command transcript does to the gate of legacy/gui/src/EvidenceParser.cpp, told on
    its lines: a repair that does not prove that it changed nothing closes it. */
module CapabilityStale {
  import opened Outcomes
  import opened LegacyText
  import opened Lists
  import opened Transcript
  import opened CapabilityModel
  import opened CapabilityHistory

  // ----- Statuses and lines ---------------------------------------------------

  /** "unchanged", alone or with a detail behind a bar. */
  ghost predicate ProvesUnchanged(status: string) {
    status == "unchanged" || exists detail :: status == "unchanged|" + detail
  }

  lemma InvalidatesIff(status: string)
    ensures Invalidates(status) <==> !ProvesUnchanged(status)
  {
    var bar := "unchanged|";
    if bar <= status {
      assert status == bar + status[|bar|..];
    }
  }

  /** A line "Repair change status <key>: <value>" with such a value. */
  ghost predicate ReportsChangeOf(line: string, raw: string, value: string) {
    && HasForm(Trim(line), "Repair change status ", raw, value) && ValidChangeStatusKey(raw)
    && !ProvesUnchanged(value)
  }

  ghost predicate LineReportsChange(line: string) {
    exists raw, value :: ReportsChangeOf(line, raw, value)
  }

  /** Some line of the transcript is a change status that does not prove that nothing
      changed. */
  ghost predicate ReportsChange(text: string) {
    exists line | line in Lines(text) :: LineReportsChange(line)
  }

  lemma LineIff(line: string)
    ensures LineReportsChange(line)
            <==> Classify(Trim(line)).ChangeStatus? && Invalidates(Classify(Trim(line)).pair.1)
  {
    var e := Classify(Trim(line));
    if e.ChangeStatus? {
      ChangeStatusIff(Trim(line), e.pair.0, e.pair.1);
      InvalidatesIff(e.pair.1);
      var raw :| HasForm(Trim(line), ChangePrefix(), raw, e.pair.1) && ValidChangeStatusKey(raw)
                 && e.pair.0 == RepairToolKeyForStage(raw);
      assert Invalidates(e.pair.1) ==> ReportsChangeOf(line, raw, e.pair.1);
    }
    if raw, value :| ReportsChangeOf(line, raw, value) {
      ChangeStatusIff(Trim(line), RepairToolKeyForStage(raw), value);
      InvalidatesIff(value);
    }
  }

  ghost predicate SomeReports(lines: seq<string>) {
    exists line | line in lines :: LineReportsChange(line)
  }

  lemma SomeReportsMore(init: seq<string>, last: string)
    ensures SomeReports(init + [last]) <==> SomeReports(init) || LineReportsChange(last)
  {
    assert forall line :: line in init + [last] <==> line in init || line == last;
  }

  lemma SomeInvalidatesMore(pairs: seq<Pair>, pair: Pair)
    ensures SomeInvalidates(pairs + [pair]) <==> SomeInvalidates(pairs) || Invalidates(pair.1)
  {
    var more := pairs + [pair];
    assert forall i | 0 <= i < |pairs| :: more[i] == pairs[i];
    assert more[|pairs|] == pair;
  }

  lemma {:induction false} LinesReportIff(lines: seq<string>)
    ensures SomeInvalidates(ParsedLines(lines).changeStatuses) <==> SomeReports(lines)
  {
    if lines != [] {
      var init, last := lines[..|lines| - 1], lines[|lines| - 1];
      assert lines == init + [last];
      LinesReportIff(init);
      SomeReportsMore(init, last);
      LineIff(last);
      var e := Classify(Trim(last));
      if e.ChangeStatus? {
        SomeInvalidatesMore(ParsedLines(init).changeStatuses, e.pair);
      }
    }
  }

  // ----- The gate after a command ---------------------------------------------

  lemma GateMore(events: seq<Event>, e: Event, key: string, identity: string)
    requires e.Command? || e.Note?
    ensures IsAvailable(Run(events + [e]), key, identity)
            <==> IsAvailable(Run(events), key, identity) && !Invalidating(e)
  {
    var more := events + [e];
    assert more[..|events|] == events;
    AvailableIff(more, key, identity);
    AvailableIff(events, key, identity);
    UnlockedStep(events, e, key);
  }

  /** Over every history, key and scope: behind a command transcript a tool is available
      exactly if it was before, and the transcript reports no change. */
  lemma CommandGate(events: seq<Event>, text: string, key: string, identity: string)
    ensures IsAvailable(Run(events + [Command(text)]), key, identity)
            <==> IsAvailable(Run(events), key, identity) && !ReportsChange(text)
  {
    GateMore(events, Command(text), key, identity);
    LinesReportIff(Lines(text));
  }

  /** The same for a single status. */
  lemma NoteGate(events: seq<Event>, noted: string, status: string, key: string, identity: string)
    ensures IsAvailable(Run(events + [Note(noted, status)]), key, identity)
            <==> IsAvailable(Run(events), key, identity) && ProvesUnchanged(status)
  {
    GateMore(events, Note(noted, status), key, identity);
    InvalidatesIff(status);
  }

  /** Once a transcript has reported a change, no tool is available for any scope until a
      run grants it again. */
  lemma ClosedUntilGranted(events: seq<Event>, text: string, later: seq<Event>, key: string, identity: string)
    requires ReportsChange(text) && forall i | 0 <= i < |later| :: !Grants(later[i], key)
    ensures !IsAvailable(Run(events + [Command(text)] + later), key, identity)
  {
    var all, command := events + [Command(text)] + later, Command(text);
    AvailableIff(all, key, identity);
    ReportVoids(text);
    ClosedBetween(events, command, later, key);
  }

  lemma ReportVoids(text: string)
    requires ReportsChange(text)
    ensures Voids(Command(text))
  {
    LinesReportIff(Lines(text));
  }

  lemma ClosedBetween(events: seq<Event>, command: Event, later: seq<Event>, key: string)
    requires Voids(command) && !Grants(command, key) && forall i | 0 <= i < |later| :: !Grants(later[i], key)
    ensures !Unlocked(events + [command] + later, key)
  {
    var all := events + [command] + later;
    forall i | |events| <= i < |all| ensures !Grants(all[i], key) {
      assert all[i] == if i == |events| then command else later[i - |events| - 1];
    }
    ClosedBehind(all, |events|, key);
  }

  lemma ClosedBehind(events: seq<Event>, k: nat, key: string)
    requires k < |events| && Voids(events[k]) && forall i | k <= i < |events| :: !Grants(events[i], key)
    ensures !Unlocked(events, key)
  {
  }

  // ----- Two lines ------------------------------------------------------------

  lemma StatusLine(line: string, key: string, value: string)
    requires ValidChangeStatusKey(key) && ' ' !in key && value != "" && Trim(value) == value && Trim(line) == line
    requires line == "Repair change status " + key + ": " + value
    ensures HasForm(Trim(line), "Repair change status ", key, value)
  {
    var prefix, rest := "Repair change status ", key + ": " + value;
    assert line == prefix + rest;
    assert line[|prefix|..] == rest && rest[..|key|] == key && rest[|key| + 2..] == value;
    assert line[|prefix| + |key|] == rest[|key|] && line[|prefix| + |key| + 1] == rest[|key| + 1];
  }

  lemma StatusText(text: string, status: string, key: string)
    requires key == "grub" && text == "Repair change status " + key + ": " + status
    requires status == "changed" || status == "unchanged"
    ensures Lines(text) == [text] && HasForm(Trim(text), "Repair change status ", key, status)
    ensures ValidChangeStatusKey(key)
  {
    assert PlainKeyChar(key[0]);
    assert Trim(status) == status && Trim(text) == text;
    StatusLine(text, key, status);
    NoBreaks(text, status);
    OneLineText(text);
  }

  lemma NoBreaks(text: string, status: string)
    requires text == "Repair change status " + "grub" + ": " + status
    requires status == "changed" || status == "unchanged"
    ensures '\n' !in text && '\r' !in text
  {
  }

  lemma ChangedReported(text: string)
    requires text == "Repair change status grub: changed"
    ensures ReportsChange(text)
  {
    var key, status := "grub", "changed";
    assert text == "Repair change status " + key + ": " + status;
    StatusText(text, status, key);
    NotProved(status);
    assert ReportsChangeOf(text, key, status);
    assert text in Lines(text);
  }

  lemma NotProved(status: string)
    requires status == "changed"
    ensures !ProvesUnchanged(status)
  {
    forall detail ensures status != "unchanged|" + detail {
      assert ("unchanged|" + detail)[0] == 'u';
    }
  }

  lemma UnchangedNotReported(text: string)
    requires text == "Repair change status grub: unchanged"
    ensures !ReportsChange(text)
  {
    var key, status := "grub", "unchanged";
    assert text == "Repair change status " + key + ": " + status;
    StatusText(text, status, key);
    OnlyStatus(text, key, status);
  }

  lemma OnlyStatus(text: string, key: string, status: string)
    requires Lines(text) == [text] && HasForm(Trim(text), ChangePrefix(), key, status) && ValidChangeStatusKey(key)
    requires ProvesUnchanged(status)
    ensures !ReportsChange(text)
  {
    ChangeStatusIff(Trim(text), RepairToolKeyForStage(key), status);
    LineIff(text);
    InvalidatesIff(status);
  }

  /** A run that grants a tool, and a repair of it: the tool is available behind "unchanged"
      and not behind "changed". */
  lemma ChangeExample()
    ensures var run := Diagnose("host", "Repair tool grub: available", true);
            && IsAvailable(Run([run, Command("Repair change status grub: unchanged")]), "grub", "host")
            && !IsAvailable(Run([run, Command("Repair change status grub: changed")]), "grub", "host")
  {
    var text, same, other := "Repair tool grub: available", "Repair change status grub: unchanged",
                             "Repair change status grub: changed";
    GrubText(text);
    GrubGranted(text);
    UnchangedNotReported(same);
    ChangedReported(other);
    var run := Diagnose("host", text, true);
    CommandGate([run], same, "grub", "host");
    CommandGate([run], other, "grub", "host");
    assert [run] + [Command(same)] == [run, Command(same)];
    assert [run] + [Command(other)] == [run, Command(other)];
  }

  lemma GrubGranted(text: string)
    requires ParsedText(text).capabilities == [("grub", "available")]
    ensures IsAvailable(Run([Diagnose("host", text, true)]), "grub", "host")
  {
    var events := [Diagnose("host", text, true)];
    assert LastValue(ParsedText(text).capabilities, "grub") == Some("available");
    assert UnlockedBy(events, 0, "grub");
    assert CapabilityKeys()[13] == "grub";
    AvailableIff(events, "grub", "host");
  }

  // ----- What the cells hold, and why a tool is refused ------------------------

  ghost predicate HoldsLast(cells: Cells, pairs: seq<Pair>) {
    forall key ::
      && (key in cells <==> LastValue(pairs, key).Some?)
      && (key in cells ==> LastValue(pairs, key) == Some(cells[key]))
  }

  lemma AssignedHolds(pairs: seq<Pair>)
    ensures HoldsLast(Assigned(map[], pairs), pairs)
  {
    forall key
      ensures key in Assigned(map[], pairs) <==> LastValue(pairs, key).Some?
      ensures key in Assigned(map[], pairs) ==> LastValue(pairs, key) == Some(Assigned(map[], pairs)[key])
    {
      AssignedIsLast(pairs, key);
    }
  }

  /** A run that succeeded and printed a capability line leaves the last value of every key,
      kind by kind; any other run leaves nothing. */
  lemma CellsAfterRun(m: Model, identity: string, text: string, processOk: bool)
    ensures var n, p := Step(m, Diagnose(identity, text, processOk)), ParsedText(text);
            if processOk && p.capabilities != [] then
              && n.ran && !n.stale
              && HoldsLast(n.capabilities, p.capabilities) && HoldsLast(n.evidence, p.capabilityEvidence)
              && HoldsLast(n.legacyFeatures, p.legacyFeatures) && HoldsLast(n.configFiles, p.configFiles)
            else
              && !n.ran && n.capabilities == map[] && n.evidence == map[]
              && n.legacyFeatures == map[] && n.configFiles == map[]
  {
    var p := ParsedText(text);
    AssignedHolds(p.capabilities);
    AssignedHolds(p.capabilityEvidence);
    AssignedHolds(p.legacyFeatures);
    AssignedHolds(p.configFiles);
  }

  /** A run that succeeded and printed a capability line. */
  predicate Gathers(e: Event) {
    e.Diagnose? && e.processOk && ParsedText(e.text).capabilities != []
  }

  /** Run d is the last one, it gathered evidence, and there was no reset since. */
  ghost predicate GatheredBy(events: seq<Event>, d: nat) {
    && d < |events| && Gathers(events[d])
    && forall i | d < i < |events| :: !events[i].Reset? && !events[i].Diagnose?
  }

  /** An event of the history that reports a change. */
  ghost predicate ChangedAt(events: seq<Event>, i: nat) {
    && i < |events|
    && match events[i]
       case Note(_, status) => !ProvesUnchanged(status)
       case Command(text) => ReportsChange(text)
       case _ => false
  }

  ghost predicate ChangedSince(events: seq<Event>, d: nat) {
    exists i | d < i < |events| :: ChangedAt(events, i)
  }

  lemma ChangedIff(events: seq<Event>, i: nat)
    requires i < |events|
    ensures ChangedAt(events, i) <==> Invalidating(events[i])
  {
    match events[i]
    case Note(_, status) => InvalidatesIff(status);
    case Command(text) => LinesReportIff(Lines(text));
    case _ =>
  }

  lemma StepRan(m: Model, seen: seq<string>, e: Event)
    requires m.invalidatingKeys == Distinct(seen)
    ensures Step(m, e).ran <==> Gathers(e) || (m.ran && !e.Reset? && !e.Diagnose?)
    ensures Step(m, e).stale <==> !Gathers(e) && !e.Reset? && (m.stale || Invalidating(e))
  {
    match e
    case Note(k, status) =>
      NotedIsAllNoted(m, k, status);
      AllNotedEffect(m, [(k, status)], seen);
      assert [(k, status)][0].1 == status;
    case Command(text) =>
      AllNotedEffect(m, ParsedText(text).changeStatuses, seen);
    case _ =>
  }

  lemma ChangedMore(init: seq<Event>, e: Event, d: nat)
    requires d < |init|
    ensures ChangedSince(init + [e], d) <==> ChangedSince(init, d) || Invalidating(e)
  {
    var events := init + [e];
    ChangedIff(events, |init|);
    assert forall i | 0 <= i < |init| :: ChangedAt(events, i) <==> ChangedAt(init, i);
    assert events[|init|] == e;
  }

  lemma RanMore(init: seq<Event>, e: Event, d: nat)
    requires GatheredBy(init + [e], d)
    requires GatheredBy(init, d) ==> (Run(init).stale <==> ChangedSince(init, d))
    ensures Run(init + [e]).stale <==> ChangedSince(init + [e], d)
  {
    assert (init + [e])[..|init|] == init;
    RunEffect(init);
    StepRan(Run(init), Invalidations(init), e);
    GatheredMore(init, init + [e]);
    if d < |init| {
      ChangedMore(init, e, d);
    }
  }

  /** In every reachable state: evidence counts as gathered exactly if the last run gathered
      it, and it is stale exactly if a change was reported since. */
  lemma {:induction false} RanIff(events: seq<Event>)
    ensures Run(events).ran <==> exists d: nat :: GatheredBy(events, d)
    ensures forall d: nat | GatheredBy(events, d) :: Run(events).stale <==> ChangedSince(events, d)
  {
    if events != [] {
      var init, e := events[..|events| - 1], events[|events| - 1];
      assert events == init + [e];
      RanIff(init);
      RunEffect(init);
      StepRan(Run(init), Invalidations(init), e);
      GatheredSome(init, e);
      forall d: nat | GatheredBy(events, d) ensures Run(events).stale <==> ChangedSince(events, d) {
        RanMore(init, e, d);
      }
    }
  }

  lemma GatheredSome(init: seq<Event>, e: Event)
    ensures (exists d: nat :: GatheredBy(init + [e], d))
            <==> Gathers(e) || ((exists d: nat :: GatheredBy(init, d)) && !e.Reset? && !e.Diagnose?)
  {
    var events := init + [e];
    GatheredMore(init, events);
    if Gathers(e) {
      assert GatheredBy(events, |init|);
    }
    if d: nat :| GatheredBy(init, d) && !e.Reset? && !e.Diagnose? {
      assert GatheredBy(events, d);
    }
  }

  lemma GatheredMore(init: seq<Event>, events: seq<Event>)
    requires events != [] && init == events[..|events| - 1]
    ensures var last := |events| - 1;
            forall d: nat :: GatheredBy(events, d)
              <==> if d == last then Gathers(events[last])
                   else GatheredBy(init, d) && !events[last].Reset? && !events[last].Diagnose?
  {
    var last := |events| - 1;
    assert events == init + [events[last]];
    assert forall i | 0 <= i < last :: init[i] == events[i];
  }

  /** Why a tool is refused, told from the history: it is no tool; or there is no evidence
      for this scope; or a change was reported since; or else by its own line. */
  lemma RefusedBecause(events: seq<Event>, key: string, identity: string)
    ensures var reason := Explain(Run(events), key, identity);
            && (reason == UnknownKey <==> key !in CapabilityKeys())
            && (reason == NotDiagnosed <==>
                  key in CapabilityKeys() && (Identity(events) != identity || forall d: nat :: !GatheredBy(events, d)))
            && (reason.Stale? <==>
                  && key in CapabilityKeys() && Identity(events) == identity
                  && exists d: nat :: GatheredBy(events, d) && ChangedSince(events, d))
            && (reason == Granted <==> IsAvailable(Run(events), key, identity))
  {
    RanIff(events);
    RunEffect(events);
  }
}
