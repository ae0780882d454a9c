# Boot Bitch: a verified model of its core algorithms

Boot Bitch is a recovery GUI for boot problems, with a legacy GUI, a privileged helper
and scripts around it. This project models the self-contained algorithms those parts
rest on, and proves what they are for. Functions and datatypes give the meaning, methods
and classes follow the loops and fields of the code and are proved against them, and
lemmas state the results over all inputs, all call histories or all interleavings.

`dafny verify dfyconfig.toml` verifies everything.

## What is proved

- **Relabelling an EFI boot entry** (`Utf16`, `LoadOption`, `EfiSplice`, `EfiRelabel`,
  `EfiExample`). The layout is that of section 3.1.3 of the UEFI Specification with the device
  path nodes of sections 10.3.5.1 and 10.3.5.4, and UTF-16 is that of sections 2.1 and 2.2 of
  RFC 2781, with the example of its section 5. A variable is accepted, or refused for its
  partition or its loader, by what the bytes of its nodes name. A splice changes the
  description only and is accepted again for exactly the same targets; a run over a store
  that fails at will ends in one of four named ways; the backup is written once.
- **Progressive diagnostic sections** (`SectionAssembler`, `BatchSlicer`, `EndOfRun`,
  `SolidLines`, `EndOfRunCuts`, `EndOfRunAgreement`, `EndOfRunExamples`). The bounded,
  self-trimming assembler reports the sections of a batch slicer of the whole stream, minus
  those whose start was dropped. The end-of-run parser is told on the lines of its text, and
  for every header of an orderly stream the two store the same text exactly when a stated
  condition on the lines holds.
- **Evidence and the repair map** (`Transcript`, `CapabilityModel`, `CapabilityHistory`,
  `CapabilityStale`, `RepairMap`, `RepairMapOrder`, `RepairPolicy`, `RepairLines`). Which
  capability is open after which history of calls and lines, and what a reported change
  closes; lookups that do not depend on the order of the rows; invalidation that covers what
  a tool requires.
- **Readers, trees and tables** (`LineReader`, `DeviceTree`, `DeviceProtection`, `DmChains`,
  `DmChainOrders`, `MountTargets`, `LinkTarget`). The chunked reader against physical
  lines, the passes over a device tree against its raw metadata and mount points, in-place
  path compression against the original chains, and where a link leads.
- **Helper runs** (`HelperStream`, `HelperDecoding`, `HelperReports`, `HelperSession`).
  Chunk-independent lines, one truthful report per child, and session entries that are all
  there or refused. UTF-8 is that of section 3 of RFC 3629, with examples of its
  section 7.
- **Translation catalogs** (the modules named `Sentinel...`, and `TranslationDriver`,
  `TranslationResult`, `TranslationLaws`, `TranslationVerify`, `TranslationFill`,
  `TranslationChecks`, `TranslationCounts`). Protecting and restoring a
  line, substitution by substitution, and what is hidden from the backends meanwhile; the
  batched fallback chain and the text it returns; the fail-closed fill, what it lets through,
  and its counters.

## Where the code differs from what is said about it

The model follows the code. Each point is shown on a concrete input or state, beside a lemma
that says exactly when the promise holds.

- A read-back that the parser refuses leaves the EFI variable changed, because the
  restore handler does not see that exit (`EfiExample.LeftUnrestoredExample`; exactly when:
  `EfiRelabel.LeftUnrestoredIff`).
- A failed backup write leaves a short file that later runs keep as the pristine copy
  (`EfiExample.TruncatedBackupExample`; exactly when: `EfiRelabel.BackupExactIff`).
- Progressive slices are not always identical to the end-of-run slices: the frame of a key
  that takes no part ends only the latter, a header without a frame starts only the former,
  a header with blanks behind its key is not found at its own line by the latter, and of
  several sections of a key the latter keep the first, so that the others agree only if
  they repeat its lines (the lemmas of `EndOfRunExamples`; exactly when:
  `EndOfRunAgreement.ProgressiveEqualsFinalIff`).
- `beginDiagnostics` moves gathered evidence to another scope
  (`CapabilityHistory.RelabelExample`; exactly when: `CapabilityHistory.AvailableIff`).
- A failed map load keeps the rows it had read, where the header promises the empty map
  (`RepairLines.FailedLoadExample`; exactly when: `RepairMapOrder.FailedLoadIsSafeIff`).
- The map's comment says loaders reject a column that mixes a reserved token with
  sections; they accept it (`RepairLines.MixedColumnExample`; exactly what is rejected:
  `RepairLines.ColumnRejectedIff`; when the token shows: `RepairPolicy.RuleTokenLeaksIff`).
- Chains longer than the hop bound stay unresolved in some row order
  (`DmChainOrders.LongChainExample`; for a given order: `DmChainOrders.ResolvedInOrderIff`).
- A run started over an unreported child is reported finished by that child's signal
  (`HelperReports.DirtyExample`; exactly when: `HelperReports.StartSafeIff`).
- Output is decoded chunk by chunk, so in a multi-byte locale a character that is cut is
  lost (`HelperDecoding.LetterCutInTwo`; exactly when: `HelperDecoding.ChunkedDecodingIff`).
- Restoring a protected line can make a placeholder that the line did not have
  (`SentinelTable.ProgramMakesPlaceholder`; exactly when:
  `SentinelPlaceholders.PlaceholdersSurviveIff`).

## Model

| member | source | states |
|---|---|---|
| Utf16.EncodeDefined | scripts/boot-repair-efi-label.py:87-94 | Strict UTF-16LE encoding succeeds exactly for texts of Unicode scalar values; surrogate code points are refused. |
| Utf16.DecodeEncode | scripts/boot-repair-efi-label.py:87-94 | Every text that can be encoded, surrogate pairs included, is decoded back unchanged. |
| Utf16.EncodeDecode | scripts/boot-repair-efi-label.py:45-49 | Every byte string that strict decoding accepts is re-encoded to the same bytes. |
| Utf16.ZeroUnitIffNul | scripts/boot-repair-efi-label.py:37-49 | An aligned zero unit occurs in an encoding exactly when the text holds NUL, so a NUL-free label has its only zero unit at the terminator. |
| Utf16.PointLayout | scripts/boot-repair-efi-label.py:87-94 | Where the bits of a code point stand: low byte first, and beyond the first plane the upper ten bits in the first unit of the pair and the lower ten in the second. |
| Utf16.PairExample | scripts/boot-repair-efi-label.py:87-94 | The code point and bytes that the standard gives as its example. |
| LoadOption.ScanFinds | scripts/boot-repair-efi-label.py:37-42 | The description scan finds a place exactly when it is the first aligned zero unit. |
| LoadOption.NodesTileList | scripts/boot-repair-efi-label.py:58-78 | The node walk stays inside the list: the nodes are a prefix of it, each as long as its length field says, and only the last may be the end node. |
| LoadOption.InspectIff | scripts/boot-repair-efi-label.py:63-74 | What one node names, on its bytes: the partition exactly if it is a hard drive node of at least 42 bytes with that GUID and a GPT signature type, the loader exactly if it is a file node that encodes a path which is the same; it is refused exactly if it is a file node that encodes none. |
| LoadOption.NormPathIs | scripts/boot-repair-efi-label.py:26-27 | The normal form of a path: with backslashes for slashes and folded, and without the backslashes in front. |
| LoadOption.SamePathIff | scripts/boot-repair-efi-label.py:74 | Two paths are the same exactly if one normal form fits both. |
| LoadOption.SlashesAlike | scripts/boot-repair-efi-label.py:26-27 | Paths that differ only in slashes and backslashes are the same. |
| LoadOption.LeadingIgnored | scripts/boot-repair-efi-label.py:26-27 | A slash or backslash in front does not matter, for a folding that leaves it alone. |
| LoadOption.WalkMeaning | scripts/boot-repair-efi-label.py:56-78 | The walk succeeds exactly for a well-formed list whose file paths decode, and then reports whether the bytes of some node name the partition and those of some node the loader. |
| LoadOption.WalkNodes | scripts/boot-repair-efi-label.py:58-78 | The loop over the node list, at any place of the variable, returns the verdict of the list's own bytes alone. |
| LoadOption.ScanDescription | scripts/boot-repair-efi-label.py:37-42 | The loop of the description scan refines the recursive scan that ScanFinds characterises. |
| LoadOption.ParseOption | scripts/boot-repair-efi-label.py:29-84 | The whole parser refines the specification function Parse, with one fault per failing check. |
| LoadOption.ParseAccepts | scripts/boot-repair-efi-label.py:29-84 | Acceptance restated without scan, walk or inspection: header, first zero unit, path list inside the variable, a node whose bytes are those of the partition and one that holds a path which is the same as the loader. |
| LoadOption.TargetVerdict | scripts/boot-repair-efi-label.py:79-84 | A variable that can be read is refused for its partition exactly if no node names it, otherwise for its loader exactly if no node names that, and accepted otherwise. |
| LoadOption.VerdictListed | scripts/boot-repair-efi-label.py:29-84 | Only a variable that can be read to its end gets one of these three verdicts. |
| EfiSplice.SpliceLayout | scripts/boot-repair-efi-label.py:136-141 | The splice keeps the attributes, the header and everything behind the description byte for byte, and never trips the internal size check. |
| EfiSplice.LabelIff | scripts/boot-repair-efi-label.py:87-94 | A label is taken exactly if it has 1 to 240 code points, none of them NUL or a surrogate. |
| EfiSplice.LabelDescribes | scripts/boot-repair-efi-label.py:87-94 | An encoded label behind the header is scanned back to exactly its terminator. |
| EfiSplice.SameTailSameTargets | scripts/boot-repair-efi-label.py:52-84 | Two variables with the same header and the same bytes behind the description are accepted for the same targets. |
| EfiSplice.RelabelParses | scripts/boot-repair-efi-label.py:136-141 | For every accepted variable and every accepted label, the spliced variable parses to exactly the new label, for the same partition and loader, and for any other target exactly when the original did; all other bytes are kept. |
| EfiSplice.RelabelUndone | scripts/boot-repair-efi-label.py:136-141 | Splicing the old label back gives the original variable byte for byte. |
| EfiRelabel.WriteAll | scripts/boot-repair-efi-label.py:97-104 | Short writes are continued until every byte is taken; it fails exactly if a write fails or takes nothing, with a proper prefix taken; empty data is never written. |
| EfiRelabel.Restore | scripts/boot-repair-efi-label.py:179-195 | The restore reports success only if the variable holds the original bytes again. |
| EfiRelabel.Relabel | scripts/boot-repair-efi-label.py:131-197 | Over a store whose reads and writes fail arbitrarily: what was read back decides whether the run ends relabelled or without a restore; every other run that wrote ends restored or with a reported restore failure; the backup is made before the first write or the one there is kept. On firmware and a file system that are sure of what they do, outcome, variable and backup are those of RunOf. |
| EfiRelabel.FaithfulFirmwareRelabels | scripts/boot-repair-efi-label.py:169-178 | With firmware that stores what it is given, every run that writes ends with the new label in the variable. |
| EfiRelabel.ParsesIff | scripts/boot-repair-efi-label.py:26-84 | A variable parses for a target exactly if some label makes it acceptable. |
| EfiRelabel.LeftUnrestoredIff | scripts/boot-repair-efi-label.py:20-22 | A whole run is left without a restore exactly when it gets as far as the write and the firmware makes of the written bytes a variable that no label makes acceptable for the target: the handler of line 179 does not see that exit. |
| EfiRelabel.DescriptionOnlyFirmwareIsSafe | scripts/boot-repair-efi-label.py:169-196 | Firmware that keeps the header and all bytes behind the description and leaves some well-formed description never leaves a run without a restore: it ends relabelled, or the original bytes are written back, with success exactly when the firmware keeps them. |
| EfiRelabel.KeptIsAcceptable | scripts/boot-repair-efi-label.py:26-84 | What the firmware has to break for that: the header, the bytes behind the description, or the description itself. |
| EfiRelabel.LeftUnrestored | scripts/boot-repair-efi-label.py:175-179 | The gap is real: this run of Relabel, on firmware that stores nothing, ends with an empty variable and no restore. |
| EfiRelabel.BackupWriteOnce | scripts/boot-repair-efi-label.py:144-155 | Over every history of runs, a backup path that exists is never changed by a later run. |
| EfiRelabel.PresentAfterWrite | scripts/boot-repair-efi-label.py:153-168 | No run reaches the write without a backup in place. |
| EfiRelabel.BackupIsPristine | scripts/boot-repair-efi-label.py:148-168 | Over every history, the backup comes from one run, before which nothing was changed and after which it stays; it holds a beginning of the bytes of that moment, the whole of them exactly when it has their length, as it does unless that run failed while writing it. |
| EfiRelabel.BackupExactIff | scripts/boot-repair-efi-label.py:148-168 | On a file system that is sure of what it does, a run that finds no backup leaves an exact one exactly when it starts and the file can be created and written whole. |
| EfiRelabel.TruncatedBackupKept | scripts/boot-repair-efi-label.py:148-168 | The exception is real: these two runs of Relabel, over a backup whose first write breaks, end with the new label in the variable and only the broken copy of the original bytes. |
| EfiExample.EntryParses | scripts/boot-repair-efi-label.py:29-84 | A boot entry of 68 bytes that is accepted, with its text. |
| EfiExample.OtherTargets | scripts/boot-repair-efi-label.py:79-84 | The same entry is refused for another loader and for another partition, and accepted for its loader with a slash in front. |
| EfiExample.LeftUnrestoredExample | scripts/boot-repair-efi-label.py:175-179 | That entry is relabelled on firmware that keeps nothing: it ends empty and without a restore. |
| EfiExample.TruncatedBackupExample | scripts/boot-repair-efi-label.py:148-168 | That entry is relabelled in two runs over a file system that takes ten bytes: the backup is not the entry. |
| SectionAssembler.Assembler.constructor | src/ProgressiveDiagnosticAssembler.h:46-50 | A new assembler has been fed nothing and has nothing pending. |
| SectionAssembler.Assembler.Feed | src/ProgressiveDiagnosticAssembler.h:65-113 | After every line the buffer, pending key, frame start and reports are those that the whole stream so far determines, for streams of any length. |
| SectionAssembler.Assembler.Append | src/ProgressiveDiagnosticAssembler.h:70-85 | The buffer is a suffix of what was fed; a drop shifts the pending frame start, or loses it, exactly as the whole stream says. |
| SectionAssembler.Assembler.FindFrameStart | src/ProgressiveDiagnosticAssembler.h:93-104 | The signature test on the buffer finds the frame start of the whole stream, and reads no index out of range. |
| SectionAssembler.Assembler.OpenSection | src/ProgressiveDiagnosticAssembler.h:105-112 | A header reports the open section up to the new frame, opens the new one there and announces its key. |
| SectionAssembler.Assembler.Finish | src/ProgressiveDiagnosticAssembler.h:116-123 | Finishing reports the last open section up to the end of the stream, if its frame start is still buffered. |
| SectionAssembler.Assembler.ReportSlice | src/ProgressiveDiagnosticAssembler.h:141-152 | An empty or reversed slice reports nothing; any other reports exactly its lines. |
| SectionAssembler.DroppedStep | src/ProgressiveDiagnosticAssembler.h:71-85 | The buffer holds at most 8192 lines, and a drop always leaves room for a whole frame. |
| SectionAssembler.DroppedMonotone | src/ProgressiveDiagnosticAssembler.h:71-85 | Lines once dropped never come back. |
| SectionAssembler.NewFrameFound | src/ProgressiveDiagnosticAssembler.h:97-104 | Trimming never changes where a new frame is found. |
| SectionAssembler.BufferedReport | src/ProgressiveDiagnosticAssembler.h:141-152 | What is cut from the buffer is what the same section is in the whole stream, or nothing once its start was dropped. |
| SectionAssembler.OneMoreLine | src/ProgressiveDiagnosticAssembler.h:86-113 | A line that is no accepted header changes nothing; a header closes exactly the open section. |
| BatchSlicer.HeadersExact | src/ProgressiveDiagnosticAssembler.h:86-92 | The headers of the batch slicer are all accepted marker lines, in order. |
| BatchSlicer.ReportedIsSelect | src/ProgressiveDiagnosticAssembler.h:65-113 | For every stream, what was reported so far is the closed slices of the batch slicer minus those that did not survive trimming. |
| BatchSlicer.AssemblerIsBatchSlicer | src/ProgressiveDiagnosticAssembler.h:5-21 | Feeding all lines and finishing reports the batch slicer's sections, in order, minus exactly those whose first line was dropped before they closed. |
| BatchSlicer.Assemble | src/MainWindow.cpp:23110-23145 | The loop that drives the assembler reports exactly the surviving slices and announces every key. |
| BatchSlicer.InOrderIff | src/ProgressiveDiagnosticAssembler.h:93-107 | A frame starts behind the previous one exactly when the previous header does not stand inside the new frame (in its title or first-divider place). |
| BatchSlicer.SectionsPartitionStream | src/ProgressiveDiagnosticAssembler.h:5-21 | For orderly streams the raw sections and the text before the first frame partition the stream. |
| BatchSlicer.ShortSectionsSurvive | src/ProgressiveDiagnosticAssembler.h:71-85 | A section of at most 6144 lines is always reported, one of more than 8192 lines never. |
| BatchSlicer.OrderlyStreamFullyReported | src/ProgressiveDiagnosticAssembler.h:16-21 | An orderly stream within the buffer limit is reported section by section, nothing missing. |
| EndOfRun.OccursAtLineEnd | src/MainWindow.cpp:21066-21068 | In a capture of whole lines, a marker or divider with its newline is found exactly at the lines that end in it. |
| EndOfRun.ParserOnLines | src/MainWindow.cpp:21055-21090 | The parser of the whole text told on its lines, for every text of single lines and every key: which line carries the marker, at which divider above the section starts, where it ends below, and what happens when the search upward starts over at the end of the text. |
| EndOfRunCuts.FoundIff | src/MainWindow.cpp:21065-21069 | A header is found at its own line exactly when it is spelt without blanks around the key and no earlier line ends so. |
| SolidLines.SameTextIff | src/MainWindow.cpp:21087-21089 | Two lists of lines that begin visibly are stored as the same text exactly if they have the same lines, but for blank lines at the end and blanks that end the last line. |
| EndOfRunAgreement.ReadAlikeIff | src/MainWindow.cpp:21070-21090 | What the parser reads at a line is the text of a section exactly if the lines between the dividers around that place are those of the section, up to such blanks. |
| EndOfRunAgreement.InsideIff | src/MainWindow.cpp:21070-21090 | Read at a line of its own section below the header, a section is stored alike exactly if the dividers above that line are those of its own frame, the title does not end with a divider, and it ends alike below. |
| EndOfRunAgreement.StoredAlikeIff | src/ProgressiveDiagnosticAssembler.h:18-21 | For any header with a key, framed or not, and the section the assembler cuts for it, by the first line that ends with the marker of the key: without one never; if it is the header's own line, exactly if the cuts fall alike there; if it stands below inside the section, exactly if only the section's own frame stands above it and the end falls alike; if it stands elsewhere, exactly if the lines read there are those of the section, but for blanks at the end. |
| EndOfRunAgreement.ProgressiveEqualsFinalIff | src/ProgressiveDiagnosticAssembler.h:18-21 | The byte-identity promise made exact, by these four cases, for every header of every orderly stream of single lines, however it is spelt and however often its key comes. |
| EndOfRunExamples.OtherFrameExample | src/ProgressiveDiagnosticAssembler.h:18-21 | Stored differently by the two: a frame of a key that takes no part behind a section. |
| EndOfRunExamples.UnframedExample | src/ProgressiveDiagnosticAssembler.h:18-21 | A header without a frame, below a divider. |
| EndOfRunExamples.BlankExample | src/ProgressiveDiagnosticAssembler.h:18-21 | A header with a trailing blank, which the end-of-run parser does not find. |
| EndOfRunExamples.RepeatedExample | src/ProgressiveDiagnosticAssembler.h:18-21 | A second section of the same key with another text. |
| EndOfRunExamples.TitleExample | src/ProgressiveDiagnosticAssembler.h:18-21 | A frame whose title ends with a divider. |
| EndOfRunExamples.RepeatedKeyIff | src/ProgressiveDiagnosticAssembler.h:18-21 | Of two sections of one key, the first found and cut alike, the second is stored alike exactly when it repeats the lines of the first, but for blanks at the end. |
| EndOfRunExamples.MarkerInBodyExample | src/ProgressiveDiagnosticAssembler.h:18-21 | A header with blanks behind its key is stored alike, because a line of its own section ends with the exact marker. |
| Transcript.ParseTranscript | legacy/gui/src/EvidenceParser.cpp:609-678 | The line loop yields the capability, evidence, feature and change-status pairs of the line classification, in order. |
| Transcript.EvidenceLineIff | legacy/gui/src/EvidenceParser.cpp:94-113 | An evidence line is recognised, with its key and trimmed value, exactly if it is the prefix, a valid key, a colon, a space and the rest. |
| Transcript.CapabilityIff | legacy/gui/src/EvidenceParser.cpp:624-634 | A line grants or refuses a capability exactly if it has the form of a repair tool line. |
| Transcript.ChangeStatusIff | legacy/gui/src/EvidenceParser.cpp:648-669 | A line is a change status exactly if it has that form with a key that may hold colons, and the key is then folded onto its tool. |
| Transcript.EvidenceKinds | legacy/gui/src/EvidenceParser.cpp:624-647 | The other three kinds of evidence, each exactly for its own form of line. |
| Transcript.OneMoreParsed | legacy/gui/src/EvidenceParser.cpp:619-669 | A line adds to the end of the list of its kind, and to no other. |
| Transcript.FoldedKeys | legacy/gui/src/EvidenceParser.cpp:255-272 | Which step keys are folded onto a tool: six by name and every step of the kernels, no others. |
| LegacyText.TrimMeaning | legacy/gui/src/EvidenceParser.cpp:17-25 | Trimming takes blanks off both ends, and all of them. |
| LegacyText.LinesOfWritten | legacy/gui/src/EvidenceParser.cpp:27-43 | Lines that are written are the lines read, with carriage returns anywhere and with or without a last newline. |
| CapabilityModel.Capabilities.ResetAll | legacy/gui/src/EvidenceParser.cpp:864-872 | A reset is the Reset step of the model, whole state. |
| CapabilityModel.Capabilities.BeginDiagnostics | legacy/gui/src/EvidenceParser.cpp:874-877 | Only the identity changes: gathered evidence stays. |
| CapabilityModel.Capabilities.ApplyDiagnosticTranscript | legacy/gui/src/EvidenceParser.cpp:879-910 | The evidence is replaced by that of the transcript; a failed run, or one without capability lines, leaves nothing that counts as run. |
| CapabilityModel.Capabilities.NoteChangeStatus | legacy/gui/src/EvidenceParser.cpp:912-925 | A status other than unchanged marks the evidence stale and records its key once; every status is kept under its key. |
| CapabilityModel.Capabilities.ApplyCommandTranscript | legacy/gui/src/EvidenceParser.cpp:927-934 | All change statuses of a transcript are noted in order. |
| CapabilityModel.Capabilities.QueryAvailable | legacy/gui/src/EvidenceParser.cpp:947-999 | The checks in their order decide availability and the reason for a refusal. |
| CapabilityModel.Capabilities.QueryState | legacy/gui/src/EvidenceParser.cpp:1001-1063 | The displayed state is available exactly when the gate is open, in every state, with the same reason. |
| CapabilityHistory.AssignedIsLast | legacy/gui/src/EvidenceParser.cpp:889-909 | Of several lines for a key the last one counts. |
| CapabilityHistory.AvailableIff | legacy/gui/src/EvidenceParser.cpp:947-999 | Over every history of calls, a key is available exactly if it is known, the scope is the one named last, and some successful run granted it with no later call taking it away. |
| CapabilityStale.CommandGate | legacy/gui/src/EvidenceParser.cpp:927-934 | Over every history, key and scope: after a command transcript a tool is available exactly if it was before and no line of the transcript is a change status with another value than unchanged, alone or with a detail behind a bar. |
| CapabilityStale.NoteGate | legacy/gui/src/EvidenceParser.cpp:912-925 | The same for a single status. |
| CapabilityStale.ClosedUntilGranted | legacy/gui/src/EvidenceParser.cpp:912-934 | Once a transcript has reported a change, a tool is not available for any scope until a later run grants it. |
| CapabilityStale.CellsAfterRun | legacy/gui/src/EvidenceParser.cpp:879-910 | A run that succeeds and prints a capability line leaves the last value of every key, kind by kind; any other run leaves nothing. |
| CapabilityStale.RanIff | legacy/gui/src/EvidenceParser.cpp:864-934 | In every reachable state, evidence counts as gathered exactly if the last run gathered it, and as stale exactly if a change was reported since. |
| CapabilityStale.RefusedBecause | legacy/gui/src/EvidenceParser.cpp:947-999 | Why a tool is refused, told from the history: it is no tool, there is no evidence for this scope, a change was reported since, or its own line says so. |
| CapabilityStale.InvalidatesIff | legacy/gui/src/EvidenceParser.cpp:731-734 | Which statuses prove that nothing changed. |
| CapabilityStale.ChangeExample | legacy/gui/src/EvidenceParser.cpp:916-917 | A run of one line that grants a tool, and a repair: the tool stays available behind unchanged and not behind changed. |
| CapabilityHistory.UnlockedScope | legacy/gui/src/EvidenceParser.cpp:874-877 | Granted evidence unlocks exactly one scope: the one named by the last beginDiagnostics after the run, otherwise its own. |
| CapabilityHistory.RelabelUnlocksOtherScope | legacy/gui/src/EvidenceParser.cpp:874-877 | The exception is real: evidence of one scope is available for another after beginDiagnostics. |
| CapabilityHistory.RelabelExample | legacy/gui/src/EvidenceParser.cpp:874-877 | With a transcript of one line, a tool granted for the host is available for the target. |
| CapabilityHistory.DisciplinedAvailableIff | legacy/gui/src/EvidenceParser.cpp:864-999 | If beginDiagnostics only follows a reset or repeats the identity, a key is available exactly for the scope whose own run granted it. |
| CapabilityHistory.InvalidatingKeysExact | legacy/gui/src/EvidenceParser.cpp:912-925 | The invalidating keys are those of all notes since the last reset, once each, in first-seen order. |
| RepairMap.RepairDiagnosticMap.Load | legacy/gui/src/EvidenceParser.cpp:437-520 | The row loop reads up to the first fault, reports it with its line, and keeps the rows read before it. |
| RepairMap.RepairDiagnosticMap.FindRow | legacy/gui/src/EvidenceParser.cpp:522-539 | The two passes of the lookup refine Find: first exact row, otherwise longest prefix row. |
| RepairMapOrder.FindIsBest | legacy/gui/src/EvidenceParser.cpp:522-539 | The lookup returns an exact row if there is one, otherwise a longest matching prefix row, otherwise none. |
| RepairMapOrder.PrefixIff | legacy/gui/src/EvidenceParser.cpp:522-539 | A prefix row matches exactly the keys that go on behind its stem. |
| RepairMapOrder.RowKeyIff | legacy/gui/src/EvidenceParser.cpp:437-520 | A row key is plain, or plain with a colon and an asterisk behind it. |
| RepairMapOrder.BestIsUnique | legacy/gui/src/EvidenceParser.cpp:502-507 | With distinct keys there is only one such row. |
| RepairMapOrder.LoadsIff | legacy/gui/src/EvidenceParser.cpp:437-520 | A map loads exactly when no line is bad and no key repeats, and then holds all rows. |
| RepairMapOrder.RowsWellMade | legacy/gui/src/EvidenceParser.cpp:437-520 | Even of a failed load, the rows kept are valid and have distinct keys. |
| RepairMapOrder.OrderDoesNotMatter | legacy/gui/src/EvidenceParser.cpp:437-539 | For every successfully loaded map, any permutation of its lines loads too and answers every lookup alike. |
| RepairMapOrder.NoRowsIff | legacy/gui/src/EvidenceParser.h:125-128 | No row is kept exactly if every line is empty or a comment, or the first one that is not is a bad one. |
| RepairMapOrder.FailedLoadIsSafeIff | legacy/gui/src/EvidenceParser.h:125-128 | The promise of the empty map after a failed load made exact on the lines: every lookup then finds nothing if and only if the first line that is neither empty nor a comment is a bad one. |
| RepairMapOrder.FailedLoadStillAnswers | legacy/gui/src/EvidenceParser.h:125-128 | Concrete failed load that still answers for its first row. |
| RepairLines.LineRead | legacy/gui/src/EvidenceParser.cpp:437-520 | Three solid cells between tabs, with a valid key and valid columns, are read as that row. |
| RepairLines.SkippedIff | legacy/gui/src/EvidenceParser.cpp:437-520 | A line is skipped exactly if it is blank or its first character that is not blank is a hash sign. |
| RepairPolicy.TokensCut | legacy/gui/src/EvidenceParser.cpp:369-391 | A column is cut at every space and comma. |
| RepairLines.FailedLoadExample | legacy/gui/src/EvidenceParser.h:125-128 | A file of two lines whose load fails and which still answers for its first line. |
| RepairPolicy.AppendUniqueSections | legacy/gui/src/EvidenceParser.cpp:393-408 | Sections are added once, in first-seen order. |
| RepairPolicy.UnionRowSections | legacy/gui/src/EvidenceParser.cpp:412-428 | The union of a row's columns; the complete set for a missing row, the rule tokens and report, and on request for an empty union. |
| RepairPolicy.AffectedIsUnion | legacy/gui/src/EvidenceParser.cpp:412-428 | For an explicit row, what is invalidated is exactly the required and the affected sections, each once. |
| RepairPolicy.RowsThatMeanAll | legacy/gui/src/EvidenceParser.cpp:412-428 | Exactly which rows mean everything, by the words in their columns, and that any other names its two columns. |
| RepairPolicy.InvalidationCovers | legacy/gui/src/EvidenceParser.cpp:541-570 | For every map and key: what is invalidated is complete or contains all the tool requires; the cancelled set contains it and is never empty; neither repeats a section. |
| RepairPolicy.RuleTokenLeaksIff | legacy/gui/src/EvidenceParser.cpp:368-428 | A rule token comes out as a section exactly when an explicit row lists it in a column that is not all. |
| RepairPolicy.MixedColumnAccepted | data/repair-diagnostic-map.tsv:37-39 | Contrary to the file's own comment, a column that mixes a rule token with a section is accepted, and the token becomes a section. |
| RepairLines.ColumnRejectedIff | data/repair-diagnostic-map.tsv:37-39 | When a line is rejected for its columns: exactly if one of them has no token, or one outside the vocabulary; mixing plays no part. |
| RepairLines.ShellClassCovers | legacy/gui/src/EvidenceParser.cpp:572-592 | For every file and class of shell commands: everything is invalidated for the empty class and for one without a row, nothing exactly for a class whose row says so, and never more than for the tool of that row. |
| RepairLines.MixedColumnExample | data/repair-diagnostic-map.tsv:37-39 | A file of one line with such a column: it loads, and the token is named as a section. |
| LineReader.LineEndMeaning | src/SystemScanner.cpp:65-70 | A physical line ends at its first newline or at the end of the file. |
| LineReader.PhysicalLinesSplit | src/SystemScanner.cpp:65-70 | The physical lines are the file split at newlines, and joining them gives the file back. |
| LineReader.BoundedLineReader.ReadLine | src/SystemScanner.cpp:58-95 | One call consumes exactly one physical line, however many chunks that takes; it returns the line without newline and one carriage return if its content fits 65536 bytes, and nothing otherwise, so no tail of an oversized line is ever returned; it counts the line and makes progress. |
| LineReader.ReadAll | src/CapabilityChecker.cpp:35-95 | Draining a file through the reader yields exactly its first 256 physical lines, minus the oversized ones. |
| LineReader.ReturnsTaken | src/SystemScanner.cpp:85-95 | One carriage return is taken off each line, and a line without one stays. |
| LineReader.LongLeftOut | src/SystemScanner.cpp:72-84 | A line of more than 65536 bytes is left out, and the lines around it stay. |
| LineReader.RemainingStep | src/SystemScanner.cpp:50-95 | What a file still has to give shrinks by one line per call. |
| DeviceTree.ApplyProtection | src/SystemScanner.cpp:547-553 | All nodes of the tree get the flag, nothing else changes. |
| DeviceTree.ClassifyTree | src/SystemScanner.cpp:483-543 | The recursive pass refines Classified: children first, then the node's own status. |
| DeviceTree.ScanDevice | src/SystemScanner.cpp:303-318 | Protection, classification and the disk summary of one top-level device. |
| DeviceTree.BacksIff | src/SystemScanner.cpp:556-571 | A tree backs the running system exactly when some node is mounted at or below a listed prefix. |
| DeviceProtection.ScanProtects | src/SystemScanner.cpp:547-617 | On the mount points themselves: a scanned tree with any node mounted at one of the nine prefixes, or below one across a slash, has all nodes protected; any other tree has none. |
| DeviceProtection.ProtectedIff | src/SystemScanner.cpp:605-617 | Which mount points are meant. |
| DeviceProtection.MountExamples | src/SystemScanner.cpp:600-604 | A disk mounted at /boot/efi is protected, one mounted at /bootX is not. |
| DeviceProtection.FileSystemKinds | src/SystemScanner.cpp:619-626 | Encrypted and Linux file systems are told by name, whatever the case of its letters. |
| DeviceProtection.FirstNamed | src/SystemScanner.cpp:629-641 | The detected name is that of the first mount point that has one. |
| DeviceProtection.OrdinaryStatus | src/SystemScanner.cpp:518-543 | A volume that is not protected, shows no system and is not encrypted is called after its file system. |
| DeviceTree.VisibleIff | src/SystemScanner.cpp:497-516 | In a classified tree visible Linux is what the raw metadata shows: it rests on children being classified first. |
| DeviceTree.ScannedTreeAgrees | src/SystemScanner.cpp:303-318 | For every device tree: all nodes are protected or none is, by the mount points; an unprotected LUKS node without its own system says unlocked exactly when some proper descendant shows Linux in its raw metadata. |
| DeviceTree.ClassifiedTreeAgrees | src/SystemScanner.cpp:483-543 | The same for every node of every subtree. |
| DeviceTree.DiskStatus | src/SystemScanner.cpp:308-318 | The summary of a disk speaks about the whole raw tree, itself included. |
| DeviceTree.CapExact | src/SystemScanner.cpp:409-481 | The depth cap never leaves more than its levels, and changes nothing exactly for trees within them. |
| DeviceTree.ParsedExact | src/SystemScanner.cpp:409-481 | With the scanner's cap, a parsed tree has at most 64 levels, and exactly the deeper trees lose nodes. |
| DmChains.ResolveChains | legacy/gui/src/DeviceInventory.cpp:713-738 | The loop that overwrites parents in place, while later rows read already shortened ones, refines Resolved; it terminates on cyclic input. |
| DmChains.RowSkipsLinks | legacy/gui/src/DeviceInventory.cpp:713-738 | In every intermediate state a row's parent is a later device of its original chain: what in-place shortening relies on. |
| DmChains.ChaseReachesEnd | legacy/gui/src/DeviceInventory.cpp:722-737 | Over such shortened parents, the bounded chase reaches the end of the original chain. |
| DmChains.ShortChainsResolved | legacy/gui/src/DeviceInventory.cpp:713-738 | If every chain ends within the hop bound, every mapper row ends with the end of its original chain. |
| DmChainOrders.LongChainFirst | legacy/gui/src/DeviceInventory.cpp:713-738 | A longer or cyclic chain whose row comes first is not resolved. |
| DmChainOrders.SomeOrderFails | legacy/gui/src/DeviceInventory.cpp:713-738 | If some chain is too long, some order of the rows leaves it unresolved. |
| DmChainOrders.ResolvedInEveryOrderIff | legacy/gui/src/DeviceInventory.cpp:713-738 | All orders of the rows are fully resolved if and only if every chain ends within the hop bound. |
| DmChainOrders.ResolvedInOrderIff | legacy/gui/src/DeviceInventory.cpp:713-738 | A given order is fully resolved if and only if every chain reaches, within the bound, its end or a device whose row stands earlier. |
| DmChainOrders.LongChainExample | legacy/gui/src/DeviceInventory.cpp:713-738 | Ten mapper rows in the order of their chain: the first one is left unresolved. |
| MountTargets.ParseProcMounts | legacy/gui/src/DeviceInventory.cpp:400-423 | Each source keeps its first mount. |
| MountTargets.MountRead | legacy/gui/src/DeviceInventory.cpp:400-413 | The first field of a line is the source and the second the target, the third the type and the fourth the options; fewer are no mount. |
| MountTargets.FieldsCut | legacy/gui/src/DeviceInventory.cpp:400-413 | Fields are what stands between white space. |
| MountTargets.ParseMountTargets | legacy/gui/src/DeviceInventory.cpp:430-470 | Each source's string is the comma-space join of its distinct targets in first-seen order. |
| MountTargets.Seen | legacy/gui/src/DeviceInventory.cpp:449-464 | The scan over the joined string finds a target exactly when it is one of the parts. |
| MountTargets.PartsOfJoin | legacy/gui/src/DeviceInventory.cpp:425-429 | Splitting a join of white-space free targets gives the list back, even if targets hold commas. |
| MountTargets.TablesAgree | legacy/gui/src/DeviceInventory.cpp:400-470 | For every mount table both parsers know the same sources, and each joined string starts with the target the other parser keeps. |
| Lists.DistinctMeaning | legacy/gui/src/DeviceInventory.cpp:430-470 | First-seen order: every element once, ordered by where it was first seen. |
| LinkTarget.ResolveLinkTarget | legacy/gui/src/DeviceInventory.cpp:93-125 | The loops that push and pop parts refine Resolved; an empty target stays empty. |
| LinkTarget.ResolvedIsNormal | legacy/gui/src/DeviceInventory.cpp:104-124 | A resolved path is absolute, without empty, dot or dot-dot parts, and walking along it leads back to its names. |
| LinkTarget.UpFromName | legacy/gui/src/DeviceInventory.cpp:109-114 | Into a directory and up again is where one was. |
| LinkTarget.UpFromRoot | legacy/gui/src/DeviceInventory.cpp:109-114 | Up from the root is the root. |
| LinkTarget.StayHere | legacy/gui/src/DeviceInventory.cpp:106-108 | A dot and an empty part change nothing. |
| LinkTarget.NameBelow | legacy/gui/src/DeviceInventory.cpp:115-124 | A name goes one directory down. |
| LinkTarget.NamesStay | legacy/gui/src/DeviceInventory.cpp:115-124 | A path of names is resolved to itself. |
| LinkTarget.WhereItStarts | legacy/gui/src/DeviceInventory.cpp:98-101 | A relative target starts at the directory of the link, an absolute one does not. |
| LinkTarget.UsualLink | legacy/gui/src/DeviceInventory.cpp:91-92 | The usual target in a directory of links: two directories up, and a device. |
| LinkTarget.ResolvedTwice | legacy/gui/src/DeviceInventory.cpp:93-125 | Resolving a resolved path changes nothing, whatever the directory. |
| LinkTarget.ResolvedInSteps | legacy/gui/src/DeviceInventory.cpp:93-125 | Following a relative target from a resolved path is resolving both at once. |
| HelperStream.HelperRunner.FlushBufferedLines | legacy/gui/src/HelperRunner.cpp:1269-1281 | The loop emits all complete lines, without one carriage return each, and keeps the rest. |
| HelperStream.HelperRunner.ReadOutput | legacy/gui/src/HelperRunner.cpp:1259-1267 | Reading does nothing without a process, and otherwise appends and flushes. |
| HelperStream.HelperRunner.ProcessExited | legacy/gui/src/HelperRunner.cpp:1283-1308 | The first exit drains, emits an unterminated rest, reports once and lets go of the process; later ones do nothing. |
| HelperStream.HelperRunner.PollFinished | legacy/gui/src/HelperRunner.cpp:888-902 | A poll that sees the child gone reports like the signal. |
| HelperStream.HelperRunner.Run | legacy/gui/src/HelperRunner.cpp:998-1047 | A start resets buffer and report; a failed start reports failure. |
| HelperStream.CutAnywhere | legacy/gui/src/HelperRunner.cpp:1269-1281 | Splitting a text in two and carrying the open rest over gives the same lines. |
| HelperStream.LinesWritten | legacy/gui/src/HelperRunner.cpp:1269-1281 | Output written line by line comes out as these lines, whatever its line ends. |
| HelperStream.RunStream | legacy/gui/src/HelperRunner.cpp:1259-1308 | For every interleaving of reads, exits and polls, the state is that of the whole output at once. |
| HelperStream.ChunkIndependence | legacy/gui/src/HelperRunner.cpp:1259-1308 | Two runs with the same whole output emit the same lines, however it was cut. |
| HelperDecoding.DecodeEncode | legacy/gui/src/HelperRunner.cpp:1264-1265 | The UTF-8 decoder gives back every text from its bytes. |
| HelperDecoding.TailsInOrder | legacy/gui/src/HelperRunner.cpp:1264-1265 | The bits of a character stand in the order of its bytes. |
| HelperDecoding.StandardExamples | legacy/gui/src/HelperRunner.cpp:1264-1265 | Two characters and their bytes as the standard gives them. |
| HelperDecoding.BetweenIff | legacy/gui/src/HelperRunner.cpp:1264-1265 | A cut of well-formed bytes falls between characters exactly if no continuation byte follows it. |
| HelperDecoding.ChunkedDecodingIff | legacy/gui/src/HelperRunner.cpp:1264-1265 | Decoding chunk by chunk gives the text of the whole well-formed output if and only if no chunk begins inside a character. |
| HelperDecoding.WholeLines | legacy/gui/src/HelperRunner.cpp:1259-1308 | A run that reads such chunks emits the lines of the whole text, however its events interleave. |
| HelperDecoding.LetterCutInTwo | legacy/gui/src/HelperRunner.cpp:1264-1265 | The exception is real: the two bytes of one letter, read one at a time, are two replacement characters. |
| HelperReports.CleanStep | legacy/gui/src/HelperRunner.cpp:888-1047 | Every event keeps the invariants that each report is about a child that exited and none is reported twice, if runs start with no unreported process. |
| HelperReports.CleanHistoryTruthful | legacy/gui/src/HelperRunner.cpp:888-1308 | So they hold over every such history. |
| HelperReports.ExitIsReported | legacy/gui/src/HelperRunner.cpp:888-902 | An exit signal or a poll that sees the child gone reports that very child, once. |
| HelperReports.StartSafeIff | legacy/gui/src/HelperRunner.cpp:909-914 | A start is safe exactly when no signal of an older child is outstanding. |
| HelperReports.DirtyStartMisreports | legacy/gui/src/HelperRunner.cpp:998-1036 | The exception is real: started over an unreported child, the new running child is reported finished by the old one's signal. |
| HelperReports.DirtyExample | legacy/gui/src/HelperRunner.cpp:998-1036 | A possible history of four steps whose one report is about a child that still runs. |
| HelperSession.ConvertEntries | legacy/gui/src/HelperRunner.cpp:956-996 | The loop over the environment entries stops at the first refusal and otherwise gives no session, a whole one, or the refusal of a partial one. |
| HelperSession.SessionIff | legacy/gui/src/HelperRunner.cpp:950-996 | A session is taken over exactly if the entries are the three, once each, in any order; there is none exactly without entries; everything else refuses the run. |
| HelperSession.HelperSessionIff | legacy/gui/src/HelperRunner.cpp:950-996 | The same for the three variables that the runner itself accepts. |
| HelperSession.EntryIff | legacy/gui/src/HelperRunner.cpp:964-966 | An entry has a name and a value exactly if it is the name, the first equals sign and the value, which may hold more of them. |
| SentinelWords.ReadTail | tools/translate_ts.py:132-163 | No sentinel can start inside another one: the reason why global replacement acts on whole tokens. |
| SentinelRestore.SealedRestored | tools/translate_ts.py:613-630 | Restoring a line of sealed pieces, all substitutions in their order, gives their canonical forms. |
| SentinelTerms.TermInPieces | tools/translate_ts.py:607-609 | A term pattern matches the half-protected text exactly where plain characters spell the term: never inside or across a token. |
| SentinelHidden.ProtectedHides | tools/translate_ts.py:582-610 | What protecting is for: in the protected line the backends see no placeholder, no ampersand, none of the six glyphs and no separator run. |
| SentinelRoundTrip.RoundTrip | tools/translate_ts.py:582-630 | For every line without sentinel-shaped text: the pieces hold the whole line, protecting seals them, and restoring gives their canonical forms: terms as the table spells them, placeholders without the possessive cut off with them, mnemonics without spaces. |
| SentinelRoundTrip.InverseIff | tools/translate_ts.py:613-614 | The documented inverse made exact: it holds if and only if no piece drops a possessive or spaces and every term is spelled canonically. |
| SentinelRoundTrip.RestoredUpToCase | tools/translate_ts.py:582-630 | Up to ASCII case, what comes back is the line without what the pieces drop: glyphs and separator runs survive. |
| SentinelDropped.RestoredOnLine | tools/translate_ts.py:582-630 | The same on the line itself: dropped are the spaces behind mnemonics and each possessive right behind a placeholder, unless a word character or the next placeholder follows it. |
| SentinelDropped.InverseOnLineIff | tools/translate_ts.py:613-614 | Restoring is the inverse of protecting exactly for the lines from which nothing is dropped so and whose terms are spelled as in the table. |
| SentinelDropped.InverseOnLine | tools/translate_ts.py:613-614 | It is so on the line itself if nothing is dropped and wherever the line spells a term, boundaries or not, it does as the table does. |
| SentinelTable.ProgramTableOk | tools/translate_ts.py:210-256 | Every table of the program's own 170 terms, in whatever order, meets what the results ask of a table. |
| SentinelPlaceholders.PlaceholdersSurviveIff | tools/translate_ts.py:517-519 | The placeholders of a line come back in order if and only if no percent sign stands before a term that takes a lower-case n. |
| SentinelPlaceholders.PlaceholdersSurvive | tools/translate_ts.py:517-519 | On the line itself: without a percent sign before an upper-case N its placeholders come back in order. |
| SentinelMade.TermMakesPlaceholder | tools/translate_ts.py:582-630 | For every table: a term of word characters that starts with a lower-case n, written in upper case behind a percent sign, comes back as a placeholder. |
| SentinelMade.NtfsMakesPlaceholder | tools/translate_ts.py:253 | So %NTFS comes back as %ntfs with every table that holds ntfs and no other term of that upper case. |
| SentinelTable.ProgramMakesPlaceholder | tools/translate_ts.py:210-256 | The program's own table is one, in whatever order its terms stand. |
| TranslationDriver.TranslateJobs | tools/translate_ts.py:890-906 | The fallback chain in batches of 25 keeps, for every line, the answer and the name of the first backend that answers. |
| TranslationDriver.CollectJobs | tools/translate_ts.py:877-886 | Identical protected lines become one job, in first-seen order. |
| TranslationDriver.RunMachineTranslation | tools/translate_ts.py:860-927 | The driver returns a source exactly when the line-by-line specification has a text for it, with that text and that backend. |
| TranslationResult.FirstAnswerIsFirst | tools/translate_ts.py:893-906 | The answer is that of the first backend that has one, and there is none exactly when no backend has one. |
| TranslationLaws.SourceBack | tools/translate_ts.py:908-926 | Which text is returned: line k of it comes from line k of the source, from the first answer to its protected form with the sentinels restored, or, without a letter, as it is but for spaces behind ampersands; the mnemonic is put back; and exactly then is the source returned. |
| TranslationLaws.PiecesComeBack | tools/translate_ts.py:916 | An answer made of tokens and clean text comes back with what the tokens stand for. |
| TranslationLaws.EchoBack | tools/translate_ts.py:908-926 | A line that the backend only echoes comes back in canonical form. |
| TranslationLaws.LetterlessLine | tools/translate_ts.py:919-920 | A line without a letter only loses the spaces behind its ampersands. |
| TranslationLaws.MnemonicIff | tools/translate_ts.py:633-656 | What putting the mnemonic back gives: nothing but one ampersand more, in front of the first letter, in the trimmed text without ampersands. |
| TranslationLaws.SourceNamed | tools/translate_ts.py:915-926 | The backend named is the one that answered the first line with a letter. |
| TranslationLaws.NumberedExample | tools/translate_ts.py:916 | A line with a placeholder, its protected form, an answer to it and what comes back. |
| TranslationResult.ReturnedIff | tools/translate_ts.py:908-926 | A source is returned exactly when every letter-bearing line got an answer. |
| TranslationResult.NewlinesKept | tools/translate_ts.py:873-926 | Before the mnemonic is put back, a returned source has as many newlines as the source, if answers are single lines. |
| TranslationResult.SplitJoin | tools/translate_ts.py:874 | Splitting at newlines and joining gives the source back. |
| TranslationResult.MnemonicKept | tools/translate_ts.py:633-656 | A source with a mnemonic comes back with one, or with the ampersand in front if no letter is left. |
| TranslationFill.RunIsSafe | tools/translate_ts.py:1081-1152 | Vanished messages are untouched. An open message gets a shippable text, and is left empty and unfinished only if there is none: its override, itself if it is a term, or machine text that is not the source again, shows no sentinel and keeps the terms; always with the placeholders and newlines of the source. Any other message keeps its text unless an override that keeps those replaces it. |
| TranslationChecks.ShippedByMachine | tools/translate_ts.py:520-571 | What machine text is shipped, on its characters: its source holds a letter, no stretch of it is a sentinel, and every protected term that stands in the source shows in it. |
| TranslationChecks.OpenIff | tools/translate_ts.py:1040-1060 | A message is filled exactly if it is not vanished and its translation is white space throughout. |
| TranslationChecks.ShippedOrMarked | tools/translate_ts.py:1096-1125 | What is shipped is never white space throughout, and what stays empty is marked unfinished and has no text that could be shipped. |
| TranslationChecks.HasSurvivorIff | tools/translate_ts.py:545-548 | A sentinel that survives is a stretch of five kinds of letters, digits and an X, or the plural token. |
| TranslationChecks.TermsSurviveIff | tools/translate_ts.py:557-571 | Terms survive exactly if each that stands alone in the source, in whatever case, shows in the translation without a letter or digit behind it or a word character before it. |
| TranslationChecks.PlaceholderFirst | tools/translate_ts.py:515-517 | A placeholder is a percent sign with an n, or with all the digits that follow. |
| TranslationChecks.LonePercent | tools/translate_ts.py:515-517 | Any other percent sign is none. |
| TranslationChecks.TokenOnlyIff | tools/translate_ts.py:488-499 | A source is left alone exactly if it holds no letter. |
| TranslationFill.SecondRunChangesNothing | tools/translate_ts.py:1038-1152 | A second run with the same backends, or with none, writes the same catalog. |
| TranslationFill.Finalise | tools/translate_ts.py:1081-1094 | Overrides win over terms and terms over machine text, and only verified candidates are accepted. |
| TranslationCounts.ApplyResults | tools/translate_ts.py:1096-1125 | The fill pass in place, and its counters by kind and by backend. |
| TranslationCounts.RewriteOverrides | tools/translate_ts.py:1127-1152 | The override pass in place; the count it returns is the number of messages it changed. |
| TranslationCounts.ChangedAreReplaced | tools/translate_ts.py:1127-1152 | After the fill these are exactly the messages that had a translation which an override replaces. |
| TranslationCounts.FillCatalog | tools/translate_ts.py:1038-1177 | Every message of the final catalog is safe for what it was. Translated plus left is the number of messages that are not vanished; override, term and machine counts add up to the messages filled; the counts per backend sum to the machine count; the rewrites are the translations replaced. |
| TranslationCounts.CountsAddUp | tools/translate_ts.py:1096-1125 | Every message that is not vanished is counted once, and every filled one by exactly one origin. |

## Left out

- Windows, dialogs, tabs and texts of both GUIs, process launch, elevation, locking, clocks, the file system and sysfs: chunks, events, file contents, trees and lines are inputs.
- The EFI variable and the backup file are objects whose reads and writes may fail in every way; the mode bits, `lstat` and `O_NOFOLLOW` checks are one test of what kind of node the path is.
- `casefold` in the loader comparison is a parameter of the target, and the partition GUID is its 16 bytes.
- SectionAssembler.Assembler.Feed: the callbacks are taken to be set, and `QString::trimmed` trims ASCII white space; a null acceptor, which ignores everything, is not modelled.
- EndOfRunAgreement.ProgressiveEqualsFinalIff: is about a capture of whole lines below the captured-output cap of src/MainWindow.cpp, which may cut the final text.
- Transcript.ParseTranscript: facts and device paths, which nothing modelled here reads, are left out.
- CapabilityModel.Capabilities.QueryAvailable: texts of the reasons are an enumeration; legacy feature and config file queries, which only look up a map, are left out.
- HelperStream.HelperRunner.Run: the elevation refusals before the start are left out, the session entries are a step of their own, and arguments and input data are not modelled.
- HelperStream.ChunkIndependence: is about decoded text; `HelperDecoding.ChunkedDecodingIff` says for which chunks of bytes it carries over.
- HelperDecoding.Decode: the decoder of the locale is library code; it is modelled as UTF-8 into characters, with one replacement for every byte outside of a well-formed character, and other multi-byte encodings are left out.
- HelperReports.CleanHistoryTruthful: rests on a child's exit signal not arriving any more once the child has been reported, because its process object is then handed to `deleteLater`; that object is not modelled.
- RepairPolicy.MixedColumnAccepted: takes a row; `RepairLines.LineRead` says which lines are read as one.
- DeviceTree.ClassifyTree: works on values, so the update of nodes through references is not captured; reading os-release files is a parameter, and so is the JSON of lsblk.
- SentinelRoundTrip.RoundTrip: word and digit classes and the case of letters are the ASCII ones, and the table of protected terms is a parameter that meets `SentinelPieces.TableOk`, as the program's own does (`SentinelTable.ProgramTableOk`); the terms are replaced in the order of the table that is given.
- TranslationDriver.RunMachineTranslation: a backend is a partial function on lines, so failures that depend on the rest of a batch are not captured.
- TranslationFill.SecondRunChangesNothing: the XML reader and writer are left out; `Saved` is what a message looks like after being written and read.
- TranslationVerify: `strip` trims ASCII white space.
- The drift report, the warnings and the printed summary of tools/translate_ts.py, the loading of the override tables, and the HTTP, shell and Argos backends.
- `readOsRelease` and the capability rows of src/CapabilityChecker.cpp, identity links and sizes of legacy/gui/src/DeviceInventory.cpp: lookups over what is modelled.
