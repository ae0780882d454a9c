/** The fail-closed capability cache of legacy/gui/src/EvidenceParser.cpp, and what
    it gates over whole histories of calls. */
module CapabilityModel {
  import opened Lists
  import opened Transcript

  function CapabilityKeys(): seq<string> {
    ["validate", "filesystem", "dpkg", "fixbroken", "aptupdate", "upgrade",
     "dkms", "display", "gpu", "input-devices", "network", "initramfs",
     "efi", "grub", "extlinux", "bootstack", "kernels"]
  }

  // ----- The state and its steps ----------------------------------------------

  type Cells = map<string, string>

  datatype Model = Model(
    identity: string, ran: bool, stale: bool,
    capabilities: Cells, evidence: Cells, legacyFeatures: Cells, configFiles: Cells,
    changes: Cells, invalidatingKeys: seq<string>)

  const FRESH := Model("", false, false, map[], map[], map[], map[], map[], [])

  datatype Event =
    | Reset
    | ClearRepair
    | Begin(identity: string)
    | Diagnose(identity: string, text: string, processOk: bool)
    | Command(text: string)
    | Note(key: string, status: string)

  /** Later pairs override earlier ones. */
  function Assigned(cells: Cells, pairs: seq<Pair>): Cells {
    if pairs == [] then cells
    else Assigned(cells, pairs[..|pairs| - 1])[pairs[|pairs| - 1].0 := pairs[|pairs| - 1].1]
  }

  function Noted(m: Model, key: string, status: string): Model {
    var n := m.(changes := m.changes[key := status]);
    if !Invalidates(status) then n
    else n.(stale := true, invalidatingKeys := AddedOnce(m.invalidatingKeys, key))
  }

  function AllNoted(m: Model, pairs: seq<Pair>): Model {
    if pairs == [] then m
    else Noted(AllNoted(m, pairs[..|pairs| - 1]), pairs[|pairs| - 1].0, pairs[|pairs| - 1].1)
  }

  function Step(m: Model, e: Event): Model {
    match e
    case Reset => FRESH
    case ClearRepair => m.(capabilities := map[], evidence := map[])
    case Begin(identity) => m.(identity := identity)
    case Diagnose(identity, text, processOk) =>
      var p := ParsedText(text);
      var n := m.(identity := identity, ran := false,
                  capabilities := map[], evidence := map[], legacyFeatures := map[], configFiles := map[]);
      if !processOk || p.capabilities == [] then n
      else n.(ran := true, stale := false,
              capabilities := Assigned(map[], p.capabilities),
              evidence := Assigned(map[], p.capabilityEvidence),
              legacyFeatures := Assigned(map[], p.legacyFeatures),
              configFiles := Assigned(map[], p.configFiles))
    case Command(text) => AllNoted(m, ParsedText(text).changeStatuses)
    case Note(key, status) => Noted(m, key, status)
  }

  function Run(events: seq<Event>): Model {
    if events == [] then FRESH else Step(Run(events[..|events| - 1]), events[|events| - 1])
  }

  // ----- The queries ----------------------------------------------------------

  datatype State = Unavailable | Available | NoEvidenceYet

  /** Why a query answers as it does. */
  datatype Reason =
    | UnknownKey | NotDiagnosed | Stale(keys: seq<string>) | NoLine | Probe(state: string) | Granted

  predicate IsAvailable(m: Model, key: string, identity: string) {
    && key in CapabilityKeys()
    && m.ran && m.identity == identity
    && !m.stale
    && key in m.capabilities && m.capabilities[key] == "available"
  }

  /** The explanation both queries give. */
  function Explain(m: Model, key: string, identity: string): Reason {
    if key !in CapabilityKeys() then UnknownKey
    else if !m.ran || m.identity != identity then NotDiagnosed
    else if m.stale then Stale(m.invalidatingKeys)
    else if key !in m.capabilities then NoLine
    else if m.capabilities[key] == "available" then Granted
    else Probe(m.capabilities[key])
  }

  // ----- The class ------------------------------------------------------------

  class Capabilities {
    var identity: string
    var ran: bool
    var stale: bool
    var capabilities: Cells
    var evidence: Cells
    var legacyFeatures: Cells
    var configFiles: Cells
    var changes: Cells
    var invalidatingKeys: seq<string>

    function Value(): Model
      reads this
    {
      Model(identity, ran, stale, capabilities, evidence, legacyFeatures, configFiles, changes, invalidatingKeys)
    }

    constructor ()
      ensures Value() == FRESH
    {
      identity, ran, stale := "", false, false;
      capabilities, evidence, legacyFeatures, configFiles := map[], map[], map[], map[];
      changes, invalidatingKeys := map[], [];
    }

    method ClearCapabilities()
      modifies this
      ensures Value() == old(Value()).(capabilities := map[], evidence := map[],
                                       legacyFeatures := map[], configFiles := map[])
    {
      capabilities, evidence, legacyFeatures, configFiles := map[], map[], map[], map[];
    }

    method ClearRepairCapabilities()
      modifies this
      ensures Value() == Step(old(Value()), ClearRepair)
    {
      capabilities, evidence := map[], map[];
    }

    method ResetAll()
      modifies this
      ensures Value() == Step(old(Value()), Reset)
    {
      identity, ran, stale := "", false, false;
      ClearCapabilities();
      changes, invalidatingKeys := map[], [];
    }

    method BeginDiagnostics(id: string)
      modifies this
      ensures Value() == Step(old(Value()), Begin(id))
    {
      identity := id;
    }

    method ApplyDiagnosticTranscript(id: string, text: string, processOk: bool)
      modifies this
      ensures Value() == Step(old(Value()), Diagnose(id, text, processOk))
    {
      identity := id;
      ran := false;
      ClearCapabilities();
      if !processOk {
        return;
      }
      var parsed := ParseTranscript(text);
      if parsed.capabilities == [] {
        return;
      }
      capabilities := AssignAll(parsed.capabilities);
      evidence := AssignAll(parsed.capabilityEvidence);
      legacyFeatures := AssignAll(parsed.legacyFeatures);
      configFiles := AssignAll(parsed.configFiles);
      ran := true;
      stale := false;
    }

    method NoteChangeStatus(key: string, status: string)
      modifies this
      ensures Value() == Step(old(Value()), Note(key, status))
    {
      changes := changes[key := status];
      if Invalidates(status) {
        stale := true;
        for i := 0 to |invalidatingKeys|
          invariant key !in invalidatingKeys[..i]
        {
          if invalidatingKeys[i] == key {
            return;
          }
        }
        invalidatingKeys := invalidatingKeys + [key];
      }
    }

    method ApplyCommandTranscript(text: string)
      modifies this
      ensures Value() == Step(old(Value()), Command(text))
    {
      var parsed := ParseTranscript(text);
      var statuses := parsed.changeStatuses;
      for i := 0 to |statuses|
        invariant Value() == AllNoted(old(Value()), statuses[..i])
      {
        assert statuses[..i + 1][..i] == statuses[..i];
        NoteChangeStatus(statuses[i].0, statuses[i].1);
      }
      assert statuses[..|statuses|] == statuses;
    }

    method QueryAvailable(key: string, id: string) returns (available: bool, reason: Reason)
      ensures available == IsAvailable(Value(), key, id)
      ensures reason == Explain(Value(), key, id)
    {
      var known := IsKnown(key);
      if !known { return false, UnknownKey; }
      if !ran || identity != id { return false, NotDiagnosed; }
      if stale { return false, Stale(invalidatingKeys); }
      if key !in capabilities { return false, NoLine; }
      if capabilities[key] == "available" { return true, Granted; }
      return false, Probe(capabilities[key]);
    }

    /** The three-way presentation; it must never disagree with the gate. */
    method QueryState(key: string, id: string) returns (state: State, reason: Reason)
      ensures state == Available <==> IsAvailable(Value(), key, id)
      ensures reason == Explain(Value(), key, id)
      ensures state == NoEvidenceYet <==> reason == NotDiagnosed || reason == NoLine
    {
      var known := IsKnown(key);
      if !known { return Unavailable, UnknownKey; }
      if !ran || identity != id { return NoEvidenceYet, NotDiagnosed; }
      if stale { return Unavailable, Stale(invalidatingKeys); }
      if key !in capabilities { return NoEvidenceYet, NoLine; }
      if capabilities[key] == "available" { return Available, Granted; }
      return Unavailable, Probe(capabilities[key]);
    }
  }

  method IsKnown(key: string) returns (known: bool)
    ensures known == (key in CapabilityKeys())
  {
    var keys := CapabilityKeys();
    for i := 0 to |keys|
      invariant key !in keys[..i]
    {
      if keys[i] == key { return true; }
    }
    return false;
  }

  method AssignAll(pairs: seq<Pair>) returns (cells: Cells)
    ensures cells == Assigned(map[], pairs)
  {
    cells := map[];
    for i := 0 to |pairs|
      invariant cells == Assigned(map[], pairs[..i])
    {
      assert pairs[..i + 1][..i] == pairs[..i];
      cells := cells[pairs[i].0 := pairs[i].1];
    }
    assert pairs[..|pairs|] == pairs;
  }
}
