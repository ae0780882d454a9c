/** The evidence lines of a helper transcript: parseTranscript of
    legacy/gui/src/EvidenceParser.cpp, as far as capabilities and change statuses
    go. */
module Transcript {
  import opened Outcomes
  import opened LegacyText

  type Pair = (string, string)

  predicate PlainKeyChar(c: char) {
    'A' <= c <= 'Z' || 'a' <= c <= 'z' || '0' <= c <= '9' || c == '.' || c == '_' || c == '-'
  }

  predicate ValidKey(key: string) {
    key != "" && forall i | 0 <= i < |key| :: PlainKeyChar(key[i])
  }

  /** The keys of change statuses may hold colons, but not only colons. */
  predicate ValidChangeStatusKey(key: string) {
    && (forall i | 0 <= i < |key| :: PlainKeyChar(key[i]) || key[i] == ':')
    && (exists i | 0 <= i < |key| :: PlainKeyChar(key[i]))
  }

  /** The first ": " of a text, or -1. */
  function FindColon(text: string, from: nat): int
    decreases |text| - from
  {
    if from + 2 > |text| then -1
    else if text[from] == ':' && text[from + 1] == ' ' then from
    else FindColon(text, from + 1)
  }

  lemma {:induction false} FindColonInRange(text: string, from: nat)
    ensures FindColon(text, from) >= 0 ==> from <= FindColon(text, from) && FindColon(text, from) + 2 <= |text|
    decreases |text| - from
  {
    if from + 2 <= |text| {
      FindColonInRange(text, from + 1);
    }
  }

  /** The text before and behind the first ": ". */
  function AtColon(text: string): Option<Pair> {
    FindColonInRange(text, 0);
    var colon := FindColon(text, 0);
    if colon < 0 then None else Some((text[..colon], Trim(text[colon + 2..])))
  }

  /** "<prefix><key>: <value>" with a valid key. */
  function EvidenceLine(line: string, prefix: string): Option<Pair> {
    if !(prefix <= line) then None
    else match AtColon(line[|prefix|..])
      case None => None
      case Some(pair) => if ValidKey(pair.0) then Some(pair) else None
  }

  function RepairToolKeyForStage(stage: string): string {
    if stage == "dpkg-configure" then "dpkg"
    else if stage == "fix-broken" then "fixbroken"
    else if stage == "apt-update" then "aptupdate"
    else if stage == "apt-upgrade" then "upgrade"
    else if stage == "display-manager" then "display"
    else if stage == "boot-stack" then "bootstack"
    else if |stage| > 8 && "kernels:" <= stage then "kernels"
    else stage
  }

  datatype Evidence =
    | Capability(pair: Pair)
    | CapabilityEvidence(pair: Pair)
    | LegacyFeature(pair: Pair)
    | ConfigFile(pair: Pair)
    | ChangeStatus(pair: Pair)
    | NoEvidence

  function ChangePrefix(): string { "Repair change status " }

  /** What one trimmed line says; the first kind that parses wins. */
  function Classify(line: string): Evidence {
    match EvidenceLine(line, "Repair tool ")
    case Some(pair) => Capability(pair)
    case None =>
    match EvidenceLine(line, "Repair capability evidence ")
    case Some(pair) => CapabilityEvidence(pair)
    case None =>
    match EvidenceLine(line, "Legacy feature ")
    case Some(pair) => LegacyFeature(pair)
    case None =>
    match EvidenceLine(line, "Legacy config ")
    case Some(pair) => ConfigFile(pair)
    case None =>
      if ChangePrefix() <= line then
        match AtColon(line[|ChangePrefix()|..])
        case Some(pair) =>
          if ValidChangeStatusKey(pair.0) then ChangeStatus((RepairToolKeyForStage(pair.0), pair.1)) else NoEvidence
        case None => NoEvidence
      else NoEvidence
  }

  datatype Parsed = Parsed(
    capabilities: seq<Pair>, capabilityEvidence: seq<Pair>, legacyFeatures: seq<Pair>,
    configFiles: seq<Pair>, changeStatuses: seq<Pair>)
  {
    function With(e: Evidence): Parsed {
      match e
      case Capability(pair) => this.(capabilities := capabilities + [pair])
      case CapabilityEvidence(pair) => this.(capabilityEvidence := capabilityEvidence + [pair])
      case LegacyFeature(pair) => this.(legacyFeatures := legacyFeatures + [pair])
      case ConfigFile(pair) => this.(configFiles := configFiles + [pair])
      case ChangeStatus(pair) => this.(changeStatuses := changeStatuses + [pair])
      case NoEvidence => this
    }
  }

  function ParsedLines(lines: seq<string>): Parsed {
    if lines == [] then Parsed([], [], [], [], [])
    else ParsedLines(lines[..|lines| - 1]).With(Classify(Trim(lines[|lines| - 1])))
  }

  function ParsedText(text: string): Parsed { ParsedLines(Lines(text)) }

  method ParseTranscript(text: string) returns (parsed: Parsed)
    ensures parsed == ParsedText(text)
  {
    parsed := Parsed([], [], [], [], []);
    var lines := SplitLines(text);
    for i := 0 to |lines|
      invariant parsed == ParsedLines(lines[..i])
    {
      assert lines[..i + 1][..i] == lines[..i];
      parsed := parsed.With(Classify(Trim(lines[i])));
    }
    assert lines[..|lines|] == lines;
  }

  /** A change status that does not prove that nothing changed. */
  predicate Invalidates(status: string) {
    !(status == "unchanged" || "unchanged|" <= status)
  }

  /** The value of the last pair with a key. */
  function LastValue(pairs: seq<Pair>, key: string): Option<string> {
    if pairs == [] then None
    else if pairs[|pairs| - 1].0 == key then Some(pairs[|pairs| - 1].1)
    else LastValue(pairs[..|pairs| - 1], key)
  }

  // ----- What a line must look like -------------------------------------------

  /** A key without spaces ends at the first ": " behind it. */
  lemma {:induction false} ColonBehindKey(text: string, from: nat, end: nat)
    requires from <= end && end + 2 <= |text| && text[end] == ':' && text[end + 1] == ' '
    requires forall i | from <= i < end :: text[i] != ' '
    ensures FindColon(text, from) == end
    decreases end - from
  {
    if from < end {
      ColonBehindKey(text, from + 1, end);
    }
  }

  lemma {:induction false} FindColonFinds(text: string, from: nat)
    requires FindColon(text, from) >= 0
    ensures var colon := FindColon(text, from);
            from <= colon && colon + 2 <= |text| && text[colon] == ':' && text[colon + 1] == ' '
    decreases |text| - from
  {
    if from + 2 <= |text| && !(text[from] == ':' && text[from + 1] == ' ') {
      FindColonFinds(text, from + 1);
    }
  }

  predicate NoSpaces(key: string) { ' ' !in key }

  /** A text is cut at the key behind its front exactly if it has that form. */
  lemma AtColonIff(text: string, key: string, value: string)
    requires NoSpaces(key)
    ensures AtColon(text) == Some((key, value))
            <==> |key| + 2 <= |text| && text[..|key|] == key && text[|key|] == ':' && text[|key| + 1] == ' '
                 && value == Trim(text[|key| + 2..])
  {
    if |key| + 2 <= |text| && text[..|key|] == key && text[|key|] == ':' && text[|key| + 1] == ' ' {
      forall i | 0 <= i < |key| ensures text[i] != ' ' {
        assert text[i] == text[..|key|][i];
      }
      ColonBehindKey(text, 0, |key|);
    }
    if AtColon(text) == Some((key, value)) {
      FindColonFinds(text, 0);
    }
  }

  /** "<prefix><key>: <rest>". */
  ghost predicate HasForm(line: string, prefix: string, key: string, value: string) {
    && prefix <= line && |prefix| + |key| + 2 <= |line|
    && line[|prefix|..][..|key|] == key
    && line[|prefix| + |key|] == ':' && line[|prefix| + |key| + 1] == ' '
    && value == Trim(line[|prefix|..][|key| + 2..])
  }

  /** An evidence line is recognised, with its key and its trimmed value, exactly if it
      is the prefix, a valid key, a colon, a space and the rest. */
  lemma EvidenceLineIff(line: string, prefix: string, key: string, value: string)
    ensures EvidenceLine(line, prefix) == Some((key, value)) <==> HasForm(line, prefix, key, value) && ValidKey(key)
  {
    if prefix <= line && ValidKey(key) {
      var rest := line[|prefix|..];
      assert forall i | 0 <= i < |rest| :: rest[i] == line[|prefix| + i];
      AtColonIff(rest, key, value);
    }
  }

  /** No other evidence starts like a change status. */
  lemma ChangeStatusAlone(line: string)
    requires ChangePrefix() <= line
    ensures EvidenceLine(line, "Repair tool ").None? && EvidenceLine(line, "Repair capability evidence ").None?
    ensures EvidenceLine(line, "Legacy feature ").None? && EvidenceLine(line, "Legacy config ").None?
  {
    ChangeApart(line);
  }

  lemma ChangeApart(line: string)
    requires "Repair change status " <= line
    ensures !("Repair tool " <= line) && !("Repair capability evidence " <= line)
    ensures !("Legacy feature " <= line) && !("Legacy config " <= line)
  {
    assert line[7] == 'c' && line[8] == 'h' && line[0] == 'R';
  }

  /** The same for change statuses, whose keys may hold colons and are folded. */
  lemma ChangeStatusIff(line: string, key: string, value: string)
    ensures Classify(line) == ChangeStatus((key, value))
            <==> exists raw :: HasForm(line, ChangePrefix(), raw, value) && ValidChangeStatusKey(raw)
                               && key == RepairToolKeyForStage(raw)
  {
    if Classify(line) == ChangeStatus((key, value)) {
      var raw := AtColon(line[|ChangePrefix()|..]).value.0;
      ChangeStatusForm(line, raw, value);
      assert HasForm(line, ChangePrefix(), raw, value);
    }
    if raw :| && HasForm(line, ChangePrefix(), raw, value) && ValidChangeStatusKey(raw)
              && key == RepairToolKeyForStage(raw) {
      ChangeStatusForm(line, raw, value);
      ChangeStatusAlone(line);
    }
  }

  /** No other evidence starts like one of the kinds. */
  lemma KindsApart(line: string)
    ensures "Repair tool " <= line ==> !("Repair capability evidence " <= line)
    ensures "Repair tool " <= line || "Repair capability evidence " <= line ==>
              !("Legacy feature " <= line) && !("Legacy config " <= line)
    ensures "Legacy feature " <= line ==> !("Legacy config " <= line)
  {
    if "Repair tool " <= line { assert line[7] == 't' && line[0] == 'R'; }
    if "Repair capability evidence " <= line { assert line[7] == 'c' && line[0] == 'R'; }
    if "Legacy feature " <= line { assert line[7] == 'f' && line[0] == 'L'; }
    if "Legacy config " <= line { assert line[7] == 'c' && line[0] == 'L'; }
  }

  /** Which other evidence a line is. */
  lemma EvidenceKinds(line: string, key: string, value: string)
    ensures Classify(line) == CapabilityEvidence((key, value))
            <==> HasForm(line, "Repair capability evidence ", key, value) && ValidKey(key)
    ensures Classify(line) == LegacyFeature((key, value))
            <==> HasForm(line, "Legacy feature ", key, value) && ValidKey(key)
    ensures Classify(line) == ConfigFile((key, value))
            <==> HasForm(line, "Legacy config ", key, value) && ValidKey(key)
  {
    KindsApart(line);
    EvidenceLineIff(line, "Repair capability evidence ", key, value);
    EvidenceLineIff(line, "Legacy feature ", key, value);
    EvidenceLineIff(line, "Legacy config ", key, value);
  }

  /** A line more adds to the list of its kind, at the end, and to no other. */
  lemma OneMoreParsed(lines: seq<string>, line: string)
    ensures var was, now, e := ParsedLines(lines), ParsedLines(lines + [line]), Classify(Trim(line));
            && now.capabilities == was.capabilities + (if e.Capability? then [e.pair] else [])
            && now.capabilityEvidence == was.capabilityEvidence + (if e.CapabilityEvidence? then [e.pair] else [])
            && now.legacyFeatures == was.legacyFeatures + (if e.LegacyFeature? then [e.pair] else [])
            && now.configFiles == was.configFiles + (if e.ConfigFile? then [e.pair] else [])
            && now.changeStatuses == was.changeStatuses + (if e.ChangeStatus? then [e.pair] else [])
  {
    assert (lines + [line])[..|lines|] == lines;
  }

  /** The steps of a tool are folded onto it: every step of the kernels, and six others. */
  lemma FoldedKeys(step: string, stage: string)
    ensures step != "" ==> RepairToolKeyForStage("kernels:" + step) == "kernels"
    ensures RepairToolKeyForStage("dpkg-configure") == "dpkg" && RepairToolKeyForStage("fix-broken") == "fixbroken"
    ensures RepairToolKeyForStage("apt-update") == "aptupdate" && RepairToolKeyForStage("apt-upgrade") == "upgrade"
    ensures RepairToolKeyForStage("display-manager") == "display" && RepairToolKeyForStage("boot-stack") == "bootstack"
    ensures RepairToolKeyForStage(stage) != stage ==>
              || stage in ["dpkg-configure", "fix-broken", "apt-update", "apt-upgrade", "display-manager", "boot-stack"]
              || exists other :: other != "" && stage == "kernels:" + other
  {
    var kernels := "kernels:";
    if step != "" {
      KernelsStep(kernels + step);
    }
    if |stage| > 8 && kernels <= stage {
      assert stage == kernels + stage[8..];
    }
  }

  lemma KernelsStep(stage: string)
    requires "kernels:" <= stage && |stage| > 8
    ensures RepairToolKeyForStage(stage) == "kernels"
  {
    assert stage[0] == 'k';
  }

  lemma ChangeStatusForm(line: string, raw: string, value: string)
    requires ValidChangeStatusKey(raw) && ChangePrefix() <= line
    ensures AtColon(line[|ChangePrefix()|..]) == Some((raw, value)) <==> HasForm(line, ChangePrefix(), raw, value)
  {
    var rest := line[|ChangePrefix()|..];
    assert forall i | 0 <= i < |rest| :: rest[i] == line[|ChangePrefix()| + i];
    AtColonIff(rest, raw, value);
  }

  /** A line is a capability exactly if it has that form, whatever else it might say. */
  lemma CapabilityIff(line: string, key: string, value: string)
    ensures Classify(line) == Capability((key, value))
            <==> HasForm(line, "Repair tool ", key, value) && ValidKey(key)
  {
    EvidenceLineIff(line, "Repair tool ", key, value);
  }
}
