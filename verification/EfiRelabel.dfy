/** The relabel transaction of scripts/boot-repair-efi-label.py: back up, write,
    read back, verify, restore.  The EFI variable and the backup path are objects
    whose system calls may fail. */
module EfiRelabel {
  import opened Outcomes
  import opened LoadOption
  import opened EfiSplice

  /** What the firmware does with the bytes it is handed.  `Unreliable` may fail
      any call and store anything; `Stores` makes every call succeed and keeps
      f(data) of the data written. */
  datatype Behaviour = Unreliable | Stores(f: Bytes -> Bytes)

  /** One Boot#### file in efivarfs. */
  class Variable {
    const behaviour: Behaviour
    var contents: Bytes
    // What the kernel has taken through the descriptor that is open.
    ghost var taken: Bytes
    // Whether the last write through it failed or took nothing.
    ghost var refused: bool

    constructor (behaviour: Behaviour, contents: Bytes)
      ensures this.behaviour == behaviour && this.contents == contents
    {
      this.behaviour := behaviour;
      this.contents := contents;
      this.taken := [];
      this.refused := false;
    }

    method Read() returns (r: Option<Bytes>)
      ensures r.Some? ==> r.value == contents
      ensures behaviour.Stores? ==> r.Some?
    {
      if behaviour.Unreliable? {
        var fails: bool := *;
        if fails { return None; }
      }
      return Some(contents);
    }

    method OpenForWriting() returns (ok: bool)
      modifies this`taken, this`refused
      ensures taken == [] && !refused
      ensures behaviour.Stores? ==> ok
    {
      taken, refused := [], false;
      ok := true;
      if behaviour.Unreliable? { ok := *; }
    }

    /** os.write: the number of bytes taken, or an error. */
    method Write(view: Bytes) returns (count: Option<nat>)
      requires view != []
      modifies this
      ensures count.Some? ==> count.value <= |view| && taken == old(taken) + view[..count.value]
      ensures count.None? ==> taken == old(taken)
      ensures refused <==> count.None? || count == Some(0)
      ensures behaviour.Stores? ==> count == Some(|view|) && contents == behaviour.f(view)
    {
      match behaviour
      case Stores(f) =>
        contents := f(view);
        taken, refused := taken + view, false;
        assert view[..|view|] == view;
        return Some(|view|);
      case Unreliable =>
        contents := *;
        var fails: bool := *;
        if fails {
          refused := true;
          return None;
        }
        var n: nat :| n <= |view|;
        taken, refused := taken + view[..n], n == 0;
        return Some(n);
    }

    method Close() returns (ok: bool)
      ensures behaviour.Stores? ==> ok
    {
      ok := true;
      if behaviour.Unreliable? { ok := *; }
    }
  }

  /** write_all: on success the kernel took exactly the data, in order, in however
      many pieces; on failure it took a proper part of it.  It fails only if a write does,
      or takes nothing: a short write is continued. */
  method WriteAll(variable: Variable, data: Bytes) returns (ok: bool)
    requires variable.taken == [] && !variable.refused
    modifies variable
    ensures ok <==> !variable.refused
    ensures ok ==> variable.taken == data
    ensures !ok ==> variable.taken < data
    ensures data == [] ==> variable.contents == old(variable.contents)
    ensures variable.behaviour.Stores? ==> ok
    ensures variable.behaviour.Stores? && data != [] ==> variable.contents == variable.behaviour.f(data)
  {
    var view := data;
    while |view| > 0
      invariant variable.taken + view == data && !variable.refused
      invariant view == data ==> variable.contents == old(variable.contents)
      invariant variable.behaviour.Stores? && view != data ==>
                  view == [] && variable.contents == variable.behaviour.f(data)
      decreases |view|
    {
      var count := variable.Write(view);
      if count.None? || count.value == 0 {
        return false;
      }
      assert view[..count.value] + view[count.value..] == view;
      view := view[count.value..];
    }
    return true;
  }

  /** The path the caller wants the pristine bytes saved at. */
  datatype Node = Absent | Regular(bytes: Bytes) | Irregular

  /** What the file system does with a new backup: it is saved, or cannot be created, or
      the write fails after some bytes, or any of these. */
  datatype Storage = Saves | CreateFails | Breaks(size: nat) | Unsure

  /** What is left of the data when the write fails after size bytes. */
  function Part(data: Bytes, size: nat): (part: Bytes)
    ensures part <= data
  {
    if size < |data| then data[..size] else data
  }

  class BackupPath {
    const storage: Storage
    var node: Node

    constructor (storage: Storage, node: Node)
      ensures this.storage == storage && this.node == node
    {
      this.storage := storage;
      this.node := node;
    }

    /** Creates the file exclusively and writes it.  A failure after the creation
        leaves the part that was written. */
    method CreateWith(bytes: Bytes) returns (ok: bool)
      requires node.Absent?
      modifies this
      ensures ok ==> node == Regular(bytes)
      ensures !ok ==> node.Absent? || (node.Regular? && node.bytes <= bytes)
      ensures storage.Saves? ==> ok
      ensures storage.CreateFails? ==> !ok && node.Absent?
      ensures storage.Breaks? ==> !ok && node == Regular(Part(bytes, storage.size))
    {
      match storage
      case Saves =>
        node := Regular(bytes);
        return true;
      case CreateFails =>
        return false;
      case Breaks(size) =>
        node := Regular(Part(bytes, size));
        return false;
      case Unsure =>
        var created: bool := *;
        if !created { return false; }
        ok := *;
        var size: nat :| size <= |bytes|;
        node := Regular(if ok then bytes else bytes[..size]);
    }
  }

  datatype Outcome =
    | Refused            // before the variable was written
    | BackupFailed       // the backup could not be created or written
    | Relabelled         // the read-back carries the requested label
    | Restored           // the original bytes were written back and verified
    | RestoreFailed      // reported: the roll-back failed as well
    | ReadBackRejected   // the parser gave up on the read-back: no restore

  predicate ReachedWrite(o: Outcome) {
    o.Relabelled? || o.Restored? || o.RestoreFailed? || o.ReadBackRejected?
  }

  /** Whether the description of a variable reads back as wanted. */
  predicate Shows(raw: Bytes, t: Target, desc: Text) {
    Parse(raw, t).Ok? && Parse(raw, t).value.0 == desc
  }

  /** The variable and backup around one run. */
  datatype World = World(contents: Bytes, node: Node)

  /** What one run promises, whatever the firmware does. */
  ghost predicate RunAllowed(pre: World, o: Outcome, post: World, t: Target, desc: Text) {
    && (o.Relabelled? ==> Shows(post.contents, t, desc))
    && (o.Restored? ==> post.contents == pre.contents)
    && (o.ReadBackRejected? ==> Parse(post.contents, t).Err?)
    && (!ReachedWrite(o) ==> post.contents == pre.contents)
    && (ReachedWrite(o) ==> Parse(pre.contents, t).Ok? && EncodeLabel(desc).Ok? && post.node.Regular?)
    && (!pre.node.Absent? ==> post.node == pre.node)
    && (pre.node.Absent? && ReachedWrite(o) ==> post.node == Regular(pre.contents))
    && (pre.node.Absent? && o.Refused? ==> post.node.Absent?)
    && (pre.node.Absent? && o.BackupFailed? ==>
          post.node.Absent? || (post.node.Regular? && post.node.bytes <= pre.contents))
    && (o.BackupFailed? ==> pre.node.Absent? && Parse(pre.contents, t).Ok? && EncodeLabel(desc).Ok?)
  }

  /** The bytes main writes. */
  function Updated(original: Bytes, t: Target, desc: Text): Bytes
    requires Parse(original, t).Ok? && EncodeLabel(desc).Ok?
  {
    RelabelParses(original, t, Parse(original, t).value.0, Parse(original, t).value.1, desc, t);
    Splice(original, EncodeLabel(desc).value, Parse(original, t).value.1)
  }

  /** Whether a run gets as far as the backup. */
  predicate Starts(pre: World, t: Target, desc: Text) {
    Parse(pre.contents, t).Ok? && EncodeLabel(desc).Ok? && !pre.node.Irregular?
  }

  /** One run on firmware whose calls all succeed and that keeps f(data), and a file
      system that is sure of what it does. */
  function RunOf(f: Bytes -> Bytes, storage: Storage, pre: World, t: Target, desc: Text): (Outcome, World)
    requires !storage.Unsure?
  {
    if !Starts(pre, t, desc) then (Refused, pre)
    else if pre.node.Absent? && storage.CreateFails? then (BackupFailed, pre)
    else if pre.node.Absent? && storage.Breaks? then
      (BackupFailed, World(pre.contents, Regular(Part(pre.contents, storage.size))))
    else
      var node := if pre.node.Absent? then Regular(pre.contents) else pre.node;
      var (o, contents) := Written(f, pre.contents, t, desc);
      (o, World(contents, node))
  }

  /** What the write, the read-back and the roll-back come to. */
  function Written(f: Bytes -> Bytes, original: Bytes, t: Target, desc: Text): (Outcome, Bytes)
    requires Parse(original, t).Ok? && EncodeLabel(desc).Ok?
  {
    var check := f(Updated(original, t, desc));
    if Parse(check, t).Err? then (ReadBackRejected, check)
    else if Shows(check, t, desc) then (Relabelled, check)
    else (if f(original) == original then Restored else RestoreFailed, f(original))
  }

  /** The roll-back of main's OSError handler. */
  method Restore(variable: Variable, original: Bytes) returns (o: Outcome)
    requires original != []
    modifies variable
    ensures o.Restored? || o.RestoreFailed?
    ensures o.Restored? ==> variable.contents == original
    ensures variable.behaviour.Stores? ==>
              && variable.contents == variable.behaviour.f(original)
              && (o.Restored? <==> variable.contents == original)
  {
    var descriptor := variable.OpenForWriting();
    if !descriptor { return RestoreFailed; }
    var written := WriteAll(variable, original);
    var closed := variable.Close();
    if !written || !closed { return RestoreFailed; }
    var back := variable.Read();
    if back.None? || back.value != original { return RestoreFailed; }
    return Restored;
  }

  /** A variable that is accepted for the target, whatever it is labelled. */
  ghost predicate Acceptable(raw: Bytes, t: Target) {
    exists desc, end :: Accepts(raw, t, desc, end)
  }

  lemma ParsesIff(raw: Bytes, t: Target)
    ensures Parse(raw, t).Ok? <==> Acceptable(raw, t)
  {
    if Parse(raw, t).Ok? {
      ParseAccepts(raw, t, Parse(raw, t).value.0, Parse(raw, t).value.1);
    }
    if desc, end :| Accepts(raw, t, desc, end) {
      ParseAccepts(raw, t, desc, end);
    }
  }

  /** What the read-back decides.  It is None if the write, the close or the read of
      the variable failed. */
  ghost predicate DecidedBy(readBack: Option<Bytes>, o: Outcome, t: Target, desc: Text) {
    && (o.ReadBackRejected? <==> readBack.Some? && !Acceptable(readBack.value, t))
    && (o.Relabelled? <==> readBack.Some? && exists end :: Accepts(readBack.value, t, desc, end))
  }

  lemma Decided(readBack: Option<Bytes>, o: Outcome, t: Target, desc: Text)
    requires o.ReadBackRejected? <==> readBack.Some? && Parse(readBack.value, t).Err?
    requires o.Relabelled? <==> readBack.Some? && Shows(readBack.value, t, desc)
    ensures DecidedBy(readBack, o, t, desc)
  {
    if readBack.Some? {
      var raw := readBack.value;
      ParsesIff(raw, t);
      if Shows(raw, t, desc) {
        ParseAccepts(raw, t, desc, Parse(raw, t).value.1);
      }
      if end :| Accepts(raw, t, desc, end) {
        ParseAccepts(raw, t, desc, end);
      }
    }
  }

  /** main, from the first read of the variable on.  What was read back decides, on
      any firmware, whether the run ends relabelled or without a restore. */
  method Relabel(variable: Variable, backup: BackupPath, t: Target, desc: Text)
    returns (o: Outcome, ghost readBack: Option<Bytes>)
    modifies variable, backup
    ensures RunAllowed(World(old(variable.contents), old(backup.node)), o,
                       World(variable.contents, backup.node), t, desc)
    ensures DecidedBy(readBack, o, t, desc)
    ensures variable.behaviour.Stores? && !backup.storage.Unsure? ==>
              (o, World(variable.contents, backup.node))
              == RunOf(variable.behaviour.f, backup.storage, World(old(variable.contents), old(backup.node)), t, desc)
  {
    readBack := None;
    Decided(None, Refused, t, desc);
    Decided(None, BackupFailed, t, desc);
    var first := variable.Read();
    if first.None? { return Refused, readBack; }
    var original := first.value;
    var parsed := ParseOption(original, t);
    if parsed.Err? { return Refused, readBack; }
    var replacement := EncodeLabel(desc);
    if replacement.Err? { return Refused, readBack; }
    var descriptionEnd := parsed.value.1;
    RelabelParses(original, t, parsed.value.0, descriptionEnd, desc, t);
    var updated := Splice(original, replacement.value, descriptionEnd);
    // The internal size check can never fail.
    assert |updated| == |original| + |replacement.value| - (descriptionEnd + 2 - 6);
    match backup.node {
      case Irregular => return Refused, readBack;
      case Regular(_) =>
      case Absent =>
        var saved := backup.CreateWith(original);
        if !saved { return BackupFailed, readBack; }
    }
    o, readBack := Write(variable, t, desc, original, updated);
  }

  /** The write, the read-back and the roll-back. */
  method Write(variable: Variable, t: Target, desc: Text, original: Bytes, updated: Bytes)
    returns (o: Outcome, ghost readBack: Option<Bytes>)
    requires original == variable.contents != [] && Parse(original, t).Ok? && EncodeLabel(desc).Ok?
    requires updated == Updated(original, t, desc) != []
    modifies variable
    ensures ReachedWrite(o)
    ensures o.Relabelled? ==> Shows(variable.contents, t, desc)
    ensures o.Restored? ==> variable.contents == original
    ensures o.ReadBackRejected? ==> Parse(variable.contents, t).Err?
    ensures DecidedBy(readBack, o, t, desc)
    ensures variable.behaviour.Stores? ==>
              (o, variable.contents) == Written(variable.behaviour.f, original, t, desc)
  {
    readBack := None;
    var descriptor := variable.OpenForWriting();
    var written := descriptor;
    if descriptor {
      written := WriteAll(variable, updated);
      var closed := variable.Close();
      written := written && closed;
    }
    if written {
      var check := variable.Read();
      readBack := check;
      if check.Some? {
        var again := ParseOption(check.value, t);
        if again.Err? {
          Decided(readBack, ReadBackRejected, t, desc);
          return ReadBackRejected, readBack;
        }
        if again.value.0 == desc {
          Decided(readBack, Relabelled, t, desc);
          return Relabelled, readBack;
        }
      }
    }
    o := Restore(variable, original);
    Decided(readBack, o, t, desc);
  }

  // ----- What the firmware decides -------------------------------------------

  /** Whether a run gets as far as writing the variable. */
  predicate Writes(storage: Storage, pre: World, t: Target, desc: Text) {
    Starts(pre, t, desc) && (pre.node.Regular? || storage.Saves?)
  }

  /** Firmware that keeps what it is given always ends relabelled. */
  lemma FaithfulFirmwareRelabels(storage: Storage, pre: World, t: Target, desc: Text)
    requires !storage.Unsure? && Writes(storage, pre, t, desc)
    ensures var (o, post) := RunOf(data => data, storage, pre, t, desc);
            o == Relabelled && post.contents == Updated(pre.contents, t, desc)
  {
    var original := pre.contents;
    RelabelParses(original, t, Parse(original, t).value.0, Parse(original, t).value.1, desc, t);
  }

  /** A run is left without a restore exactly when it writes and the firmware makes of
      the written bytes a variable that no label makes acceptable for the target. */
  lemma LeftUnrestoredIff(f: Bytes -> Bytes, storage: Storage, pre: World, t: Target, desc: Text)
    requires !storage.Unsure?
    ensures RunOf(f, storage, pre, t, desc).0.ReadBackRejected?
            <==> Writes(storage, pre, t, desc) && !Acceptable(f(Updated(pre.contents, t, desc)), t)
  {
    if Writes(storage, pre, t, desc) {
      ParsesIff(f(Updated(pre.contents, t, desc)), t);
    }
  }

  /** The firmware keeps the header and everything behind the description, and leaves
      some well-formed description. */
  ghost predicate KeepsTargets(kept: Bytes, given: Bytes, end: nat) {
    && |kept| >= 12 && |given| >= 12 && end + 2 <= |given[4..]|
    && kept[4..][..6] == given[4..][..6]
    && exists desc, keptEnd ::
         && Describes(kept[4..], desc, keptEnd)
         && kept[4..][keptEnd + 2..] == given[4..][end + 2..]
  }

  lemma KeptIsAcceptable(kept: Bytes, given: Bytes, t: Target, desc: Text, end: nat)
    requires Accepts(given, t, desc, end) && KeepsTargets(kept, given, end)
    ensures Acceptable(kept, t)
  {
    var other, keptEnd :|
      Describes(kept[4..], other, keptEnd) && kept[4..][keptEnd + 2..] == given[4..][end + 2..];
    SameTailSameTargets(given, desc, end, kept, other, keptEnd, t);
  }

  lemma KeptParses(original: Bytes, t: Target, desc: Text, kept: Bytes)
    requires Parse(original, t).Ok? && EncodeLabel(desc).Ok?
    requires KeepsTargets(kept, Updated(original, t, desc), 6 + |EncodeLabel(desc).value| - 2)
    ensures Parse(kept, t).Ok?
  {
    var given := Updated(original, t, desc);
    var end: nat := 6 + |EncodeLabel(desc).value| - 2;
    RelabelParses(original, t, Parse(original, t).value.0, Parse(original, t).value.1, desc, t);
    ParseAccepts(given, t, desc, end);
    KeptIsAcceptable(kept, given, t, desc, end);
    ParsesIff(kept, t);
  }

  /** Firmware that changes nothing but the description, be it to cut the label short,
      to change its case or to replace it, never leaves a run without a restore: it
      ends relabelled, or the original bytes are written back, with success exactly
      when the firmware keeps those. */
  lemma DescriptionOnlyFirmwareIsSafe(f: Bytes -> Bytes, storage: Storage, pre: World, t: Target, desc: Text)
    requires !storage.Unsure? && Writes(storage, pre, t, desc)
    requires var given := Updated(pre.contents, t, desc);
             KeepsTargets(f(given), given, 6 + |EncodeLabel(desc).value| - 2)
    ensures var (o, post) := RunOf(f, storage, pre, t, desc);
            && !o.ReadBackRejected?
            && (o.Relabelled? || post.contents == f(pre.contents))
            && (o.Restored? ==> post.contents == pre.contents)
            && (o.RestoreFailed? ==> f(pre.contents) != pre.contents)
  {
    KeptParses(pre.contents, t, desc, f(Updated(pre.contents, t, desc)));
  }

  /** The gap is real: on firmware that keeps nothing, this run of Relabel leaves an empty
      variable behind, although writing the original bytes back was never tried. */
  method LeftUnrestored(original: Bytes, t: Target, desc: Text)
    returns (variable: Variable, backup: BackupPath, o: Outcome)
    requires Parse(original, t).Ok? && EncodeLabel(desc).Ok?
    ensures fresh(variable) && fresh(backup)
    ensures o.ReadBackRejected? && variable.contents == [] != original && backup.node == Regular(original)
  {
    variable := new Variable(Stores(data => []), original);
    backup := new BackupPath(Saves, Absent);
    ghost var readBack;
    o, readBack := Relabel(variable, backup, t, desc);
  }

  // ----- Histories of runs ----------------------------------------------------

  datatype Run = Run(pre: World, outcome: Outcome, post: World, target: Target, desc: Text)

  /** Runs over one backup path.  Between two runs the variable may change freely;
      the backup does not. */
  ghost predicate History(runs: seq<Run>) {
    && (forall i | 0 <= i < |runs| ::
          RunAllowed(runs[i].pre, runs[i].outcome, runs[i].post, runs[i].target, runs[i].desc))
    && (forall i | 0 < i < |runs| :: runs[i].pre.node == runs[i - 1].post.node)
  }

  /** Once the path holds something, no later run changes it. */
  lemma {:induction false} BackupWriteOnce(runs: seq<Run>, i: nat, j: nat)
    requires History(runs) && i <= j < |runs|
    requires !runs[i].post.node.Absent?
    ensures runs[j].post.node == runs[i].post.node
    decreases j - i
  {
    if i < j {
      BackupWriteOnce(runs, i, j - 1);
      assert runs[j].pre.node == runs[j - 1].post.node;
    }
  }

  lemma PresentAfterWrite(runs: seq<Run>, i: nat, j: nat)
    requires History(runs) && i < j < |runs|
    ensures runs[j].pre.node.Absent? ==> !ReachedWrite(runs[i].outcome)
  {
    if ReachedWrite(runs[i].outcome) {
      BackupWriteOnce(runs, i, j - 1);
    }
    assert runs[j].pre.node == runs[j - 1].post.node;
  }

  lemma {:induction false} CreatingRun(runs: seq<Run>, last: nat) returns (k: nat)
    requires History(runs) && last < |runs|
    requires runs[0].pre.node.Absent? && !runs[last].post.node.Absent?
    ensures k <= last && runs[k].pre.node.Absent? && !runs[k].post.node.Absent?
  {
    if runs[last].pre.node.Absent? {
      k := last;
    } else {
      assert runs[last].pre.node == runs[last - 1].post.node;
      k := CreatingRun(runs, last - 1);
    }
  }

  /** The run that created the backup. */
  lemma BackupCreated(runs: seq<Run>) returns (k: nat)
    requires History(runs) && runs != []
    requires runs[0].pre.node.Absent? && !runs[|runs| - 1].post.node.Absent?
    ensures k < |runs| && runs[k].pre.node.Absent? && !runs[k].post.node.Absent?
    ensures forall j | k <= j < |runs| :: runs[j].post.node == runs[k].post.node
  {
    k := CreatingRun(runs, |runs| - 1);
    forall j | k <= j < |runs| ensures runs[j].post.node == runs[k].post.node {
      BackupWriteOnce(runs, k, j);
    }
  }

  lemma NothingWrittenBefore(runs: seq<Run>, k: nat)
    requires History(runs) && k < |runs| && runs[k].pre.node.Absent?
    ensures forall i | 0 <= i < k :: runs[i].post.contents == runs[i].pre.contents
  {
    forall i | 0 <= i < k ensures !ReachedWrite(runs[i].outcome) {
      PresentAfterWrite(runs, i, k);
    }
  }

  /** In a history that starts without a backup and ends with one, a single run
      k created it.  No run before k wrote the variable, no run after k changed
      the backup, and it holds a beginning of what the variable held before run k: the
      whole of it exactly when it has its length, as it does unless run k failed in
      the middle of writing it. */
  lemma BackupIsPristine(runs: seq<Run>) returns (k: nat)
    requires History(runs) && runs != []
    requires runs[0].pre.node.Absent? && !runs[|runs| - 1].post.node.Absent?
    ensures k < |runs| && runs[k].pre.node.Absent? && runs[k].post.node.Regular?
    ensures forall i | 0 <= i < k :: runs[i].post.contents == runs[i].pre.contents
    ensures forall j | k <= j < |runs| :: runs[j].post.node == runs[k].post.node
    ensures runs[k].outcome.BackupFailed? || ReachedWrite(runs[k].outcome)
    ensures ReachedWrite(runs[k].outcome) ==> runs[k].post.node == Regular(runs[k].pre.contents)
    ensures runs[k].post.node.bytes <= runs[k].pre.contents
    ensures runs[k].post.node == Regular(runs[k].pre.contents)
            <==> |runs[k].post.node.bytes| == |runs[k].pre.contents|
  {
    k := BackupCreated(runs);
    NothingWrittenBefore(runs, k);
    var run := runs[k];
    assert RunAllowed(run.pre, run.outcome, run.post, run.target, run.desc);
  }

  /** On a file system that is sure of what it does: a run that finds no backup leaves an
      exact copy exactly when it starts, and the file can be created and written whole. */
  lemma BackupExactIff(f: Bytes -> Bytes, storage: Storage, pre: World, t: Target, desc: Text)
    requires !storage.Unsure? && pre.node.Absent?
    ensures RunOf(f, storage, pre, t, desc).1.node == Regular(pre.contents)
            <==> && Starts(pre, t, desc)
                 && (storage.Saves? || (storage.Breaks? && storage.size >= |pre.contents|))
  {
  }

  /** The exception is real, and it stays: when the first write of the backup breaks, these
      two runs of Relabel end with the new label in the variable and the broken copy in
      place of the original bytes, which are nowhere any more. */
  method TruncatedBackupKept(original: Bytes, t: Target, desc: Text, size: nat)
    returns (variable: Variable, backup: BackupPath, first: Outcome, second: Outcome)
    requires Parse(original, t).Ok? && EncodeLabel(desc).Ok? && size < |original|
    ensures fresh(variable) && fresh(backup)
    ensures first.BackupFailed? && second.Relabelled?
    ensures variable.contents == Updated(original, t, desc)
    ensures backup.node == Regular(original[..size]) && backup.node != Regular(original)
  {
    variable := new Variable(Stores(data => data), original);
    backup := new BackupPath(Breaks(size), Absent);
    ghost var readBack;
    first, readBack := Relabel(variable, backup, t, desc);
    assert |original[..size]| < |original|;
    FaithfulFirmwareRelabels(Breaks(size), World(original, backup.node), t, desc);
    second, readBack := Relabel(variable, backup, t, desc);
  }
}
