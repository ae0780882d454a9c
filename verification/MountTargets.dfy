/** The mount tables of legacy/gui/src/DeviceInventory.cpp: parseProcMounts keeps the
    first mount of a source, parseMountTargets keeps a list of distinct targets
    encoded in one joined string. */
module MountTargets {
  import opened Outcomes
  import opened Lists
  import opened Text

  // ----- Lines and fields -----------------------------------------------------

  /** The white-space separated fields that are complete, and the one that is open. */
  function Scan(line: string): (seq<string>, string) {
    if line == "" then ([], "")
    else
      var (fields, current) := Scan(line[..|line| - 1]);
      var c := line[|line| - 1];
      if !IsSpace(c) then (fields, current + [c])
      else if current == "" then (fields, "")
      else (fields + [current], "")
  }

  function Fields(line: string): seq<string> {
    var (fields, current) := Scan(line);
    if current == "" then fields else fields + [current]
  }

  predicate IsWord(word: string) {
    word != "" && forall i | 0 <= i < |word| :: !IsSpace(word[i])
  }

  lemma {:induction false} ScanWords(line: string)
    ensures forall i | 0 <= i < |Scan(line).0| :: IsWord(Scan(line).0[i])
    ensures Scan(line).1 == "" || IsWord(Scan(line).1)
  {
    if line != "" {
      ScanWords(line[..|line| - 1]);
    }
  }

  datatype Mount = Mount(source: string, target: string, fstype: string, options: string)

  /** Lines with fewer than four fields are skipped. */
  function MountOf(line: string): Option<Mount> {
    var fields := Fields(line);
    if |fields| < 4 then None else Some(Mount(fields[0], fields[1], fields[2], fields[3]))
  }

  lemma MountWords(line: string)
    requires MountOf(line).Some?
    ensures IsWord(MountOf(line).value.source) && IsWord(MountOf(line).value.target)
  {
    ScanWords(line);
  }

  /** All mounts of one source, in order. */
  function MountsOf(lines: seq<string>, source: string): seq<Mount> {
    if lines == [] then []
    else
      var before := MountsOf(lines[..|lines| - 1], source);
      match MountOf(lines[|lines| - 1])
      case None => before
      case Some(mount) => if mount.source == source then before + [mount] else before
  }

  function Targets(mounts: seq<Mount>): seq<string> {
    seq(|mounts|, i requires 0 <= i < |mounts| => mounts[i].target)
  }

  function TargetsOf(lines: seq<string>, source: string): seq<string> {
    Targets(MountsOf(lines, source))
  }

  // ----- The joined string ----------------------------------------------------

  function Join(targets: seq<string>): string
    requires targets != []
  {
    if |targets| == 1 then targets[0] else Join(targets[..|targets| - 1]) + ", " + targets[|targets| - 1]
  }

  /** The first ", " at or after from, or -1. */
  function FindSeparator(text: string, from: nat): (comma: int)
    ensures comma >= 0 ==> from <= comma && comma + 2 <= |text|
    decreases |text| - from
  {
    if from + 2 > |text| then -1
    else if text[from] == ',' && text[from + 1] == ' ' then from
    else FindSeparator(text, from + 1)
  }

  /** The parts the scan of parseMountTargets compares with, from pos on. */
  function Parts(joined: string, pos: nat): seq<string>
    requires pos <= |joined|
    decreases |joined| - pos
  {
    var comma := FindSeparator(joined, pos);
    if comma < 0 then [joined[pos..]] else [joined[pos..comma]] + Parts(joined, comma + 2)
  }

  /** A word that a separator or the end follows is found whole: its own commas do
      not matter, because no space stands behind them. */
  lemma {:induction false} SeparatorBehindWord(text: string, from: nat, end: nat)
    requires from <= end <= |text|
    requires forall i | from <= i < end :: !IsSpace(text[i])
    requires end == |text| || (end + 2 <= |text| && text[end] == ',' && text[end + 1] == ' ')
    ensures FindSeparator(text, from) == if end == |text| then -1 else end
    decreases end - from
  {
    if from < end {
      assert !(from + 2 <= |text| && text[from] == ',' && text[from + 1] == ' ') by {
        if from + 1 < end { assert !IsSpace(text[from + 1]); }
      }
      SeparatorBehindWord(text, from + 1, end);
    }
  }

  /** One word between two places of a text, with a separator or nothing behind it. */
  ghost predicate WordAt(text: string, from: nat, end: nat, word: string) {
    && IsWord(word) && from <= end <= |text| && text[from..end] == word
    && (end == |text| || (end + 2 <= |text| && text[end] == ',' && text[end + 1] == ' '))
  }

  lemma WordHasNoSpace(text: string, from: nat, end: nat, word: string)
    requires WordAt(text, from, end, word)
    ensures forall i | from <= i < end :: !IsSpace(text[i])
  {
    forall i | from <= i < end ensures !IsSpace(text[i]) {
      assert text[i] == word[i - from];
    }
  }

  lemma PartsStep(text: string, from: nat, end: nat, word: string)
    requires WordAt(text, from, end, word)
    ensures Parts(text, from) == [word] + if end == |text| then [] else Parts(text, end + 2)
  {
    WordHasNoSpace(text, from, end, word);
    SeparatorBehindWord(text, from, end);
    assert end == |text| ==> text[from..] == word;
  }

  lemma PartsBehind(text: string, same: string, from: nat, end: nat, next: nat, word: string)
    requires WordAt(text, from, end, word) && end < |text| && text == same && next == end + 2
    ensures Parts(text, from) == [word] + Parts(same, next)
  {
    PartsStep(text, from, end, word);
  }

  lemma WordThenRest(prefix: string, word: string, rest: string)
    requires IsWord(word)
    ensures WordAt(prefix + (word + ", " + rest), |prefix|, |prefix| + |word|, word)
    ensures |prefix| + |word| < |prefix + (word + ", " + rest)|
  {
  }

  lemma Regrouped(prefix: string, word: string, rest: string)
    ensures prefix + (word + ", " + rest) == (prefix + word + ", ") + rest
    ensures |prefix + word + ", "| == |prefix| + |word| + 2
  {
  }

  lemma LastWord(prefix: string, word: string)
    requires IsWord(word)
    ensures WordAt(prefix + word, |prefix|, |prefix + word|, word)
  {
  }

  lemma PartsCons(prefix: string, word: string, rest: string)
    requires IsWord(word)
    ensures Parts(prefix + (word + ", " + rest), |prefix|)
            == [word] + Parts((prefix + word + ", ") + rest, |prefix + word + ", "|)
  {
    var text, longer := prefix + (word + ", " + rest), prefix + word + ", ";
    WordThenRest(prefix, word, rest);
    Regrouped(prefix, word, rest);
    PartsBehind(text, longer + rest, |prefix|, |prefix| + |word|, |longer|, word);
  }

  /** Splitting undoes joining. */
  lemma {:induction false} PartsOfJoin(targets: seq<string>, prefix: string)
    requires targets != [] && forall i | 0 <= i < |targets| :: IsWord(targets[i])
    ensures Parts(prefix + Join(targets), |prefix|) == targets
    decreases |targets|
  {
    var head := targets[0];
    if |targets| == 1 {
      LastWord(prefix, head);
      PartsStep(prefix + head, |prefix|, |prefix + head|, head);
    } else {
      JoinFront(targets);
      PartsOfJoin(targets[1..], prefix + head + ", ");
      PartsCons(prefix, head, Join(targets[1..]));
    }
  }

  lemma {:induction false} JoinFront(targets: seq<string>)
    requires |targets| >= 2
    ensures Join(targets) == targets[0] + ", " + Join(targets[1..])
  {
    var init := targets[..|targets| - 1];
    assert targets[1..][..|targets| - 2] == init[1..];
    if |targets| > 2 {
      JoinFront(init);
    }
  }

  // ----- The two parsers ------------------------------------------------------

  lemma MountsStep(lines: seq<string>, line: string, source: string)
    ensures MountsOf(lines + [line], source)
            == match MountOf(line)
               case None => MountsOf(lines, source)
               case Some(mount) => if mount.source == source then MountsOf(lines, source) + [mount]
                                   else MountsOf(lines, source)
  {
    assert (lines + [line])[..|lines|] == lines;
  }

  /** What the map knows of one source is the first of its mounts. */
  ghost predicate KeepsFirst(mounts: map<string, Mount>, source: string, all: seq<Mount>) {
    && (source in mounts <==> all != [])
    && (source in mounts ==> mounts[source] == all[0])
  }

  method ParseProcMounts(lines: seq<string>) returns (mounts: map<string, Mount>)
    ensures forall source :: KeepsFirst(mounts, source, MountsOf(lines, source))
  {
    mounts := map[];
    for i := 0 to |lines|
      invariant forall source :: KeepsFirst(mounts, source, MountsOf(lines[..i], source))
    {
      assert lines[..i + 1] == lines[..i] + [lines[i]];
      var record := MountOf(lines[i]);
      ghost var before := mounts;
      if record.Some? && record.value.source !in mounts {
        mounts := mounts[record.value.source := record.value];
      }
      ghost var done, now := lines[..i], lines[..i + 1];
      forall source ensures KeepsFirst(mounts, source, MountsOf(now, source)) {
        assert KeepsFirst(before, source, MountsOf(done, source));
        MountsStep(done, lines[i], source);
      }
    }
    assert lines[..|lines|] == lines;
  }

  /** The scan over the joined string. */
  method Seen(joined: string, target: string) returns (seen: bool)
    ensures seen == (target in Parts(joined, 0))
  {
    var pos := 0;
    while pos <= |joined|
      invariant pos <= |joined|
      invariant (target in Parts(joined, 0)) == (target in Parts(joined, pos))
      decreases |joined| - pos
    {
      var comma := FindSeparator(joined, pos);
      var part := if comma < 0 then joined[pos..] else joined[pos..comma];
      if part == target {
        return true;
      }
      if comma < 0 {
        return false;
      }
      pos := comma + 2;
    }
    return false;
  }

  /** The joined string of a source is the ", "-join of its distinct targets. */
  ghost predicate Encodes(joined: string, targets: seq<string>) {
    && targets != []
    && (forall i | 0 <= i < |targets| :: IsWord(targets[i]))
    && Distinct(targets) != [] && joined == Join(Distinct(targets))
  }

  lemma EncodedParts(joined: string, targets: seq<string>)
    requires Encodes(joined, targets)
    ensures Parts(joined, 0) == Distinct(targets)
  {
    AddedUniqueMeaning([], targets);
    forall i | 0 <= i < |Distinct(targets)| ensures IsWord(Distinct(targets)[i]) {
      assert Distinct(targets)[i] in targets;
    }
    PartsOfJoin(Distinct(targets), "");
    assert "" + joined == joined;
  }

  lemma EncodesMore(joined: string, targets: seq<string>, target: string)
    requires IsWord(target)
    requires targets == [] || Encodes(joined, targets)
    ensures targets == [] ==> Encodes(target, targets + [target])
    ensures targets != [] && target in Distinct(targets) ==> Encodes(joined, targets + [target])
    ensures targets != [] && target !in Distinct(targets) ==> Encodes(joined + ", " + target, targets + [target])
  {
    DistinctAppend(targets, target);
    if targets != [] && target !in Distinct(targets) {
      assert (Distinct(targets) + [target])[..|Distinct(targets)|] == Distinct(targets);
    }
  }

  lemma TargetsStep(lines: seq<string>, line: string, source: string)
    ensures TargetsOf(lines + [line], source)
            == match MountOf(line)
               case None => TargetsOf(lines, source)
               case Some(mount) => if mount.source == source then TargetsOf(lines, source) + [mount.target]
                                   else TargetsOf(lines, source)
  {
    assert (lines + [line])[..|lines|] == lines;
  }

  /** What the map knows of one source is the join of its distinct targets. */
  ghost predicate KeepsJoin(targets: map<string, string>, source: string, all: seq<string>) {
    && (source in targets <==> all != [])
    && (source in targets ==> Encodes(targets[source], all))
  }

  /** The joined string after one more target; none before the first. */
  method AddTarget(joined: Option<string>, target: string, ghost targets: seq<string>) returns (more: string)
    requires IsWord(target)
    requires joined.None? <==> targets == []
    requires joined.Some? ==> Encodes(joined.value, targets)
    ensures Encodes(more, targets + [target])
  {
    EncodesMore(if joined.None? then "" else joined.value, targets, target);
    if joined.None? {
      return target;
    }
    EncodedParts(joined.value, targets);
    var seen := Seen(joined.value, target);
    more := if seen then joined.value else joined.value + ", " + target;
  }

  method ParseMountTargets(lines: seq<string>) returns (targets: map<string, string>)
    ensures forall source :: KeepsJoin(targets, source, TargetsOf(lines, source))
  {
    targets := map[];
    for i := 0 to |lines|
      invariant forall source :: KeepsJoin(targets, source, TargetsOf(lines[..i], source))
    {
      ghost var done, now, before := lines[..i], lines[..i + 1], targets;
      assert now == done + [lines[i]];
      var record := MountOf(lines[i]);
      if record.Some? {
        var source := record.value.source;
        MountWords(lines[i]);
        assert KeepsJoin(before, source, TargetsOf(done, source));
        var joined := if source in targets then Some(targets[source]) else None;
        var more := AddTarget(joined, record.value.target, TargetsOf(done, source));
        targets := targets[source := more];
      }
      forall source ensures KeepsJoin(targets, source, TargetsOf(now, source)) {
        assert KeepsJoin(before, source, TargetsOf(done, source));
        TargetsStep(done, lines[i], source);
      }
    }
    assert lines[..|lines|] == lines;
  }

  /** For every mount table both parsers know the same sources; each joined string
      splits back into the distinct targets in first-seen order, and starts with the
      target the other parser keeps. */
  lemma TablesAgree(lines: seq<string>, mounts: map<string, Mount>, targets: map<string, string>)
    requires forall source :: KeepsFirst(mounts, source, MountsOf(lines, source))
    requires forall source :: KeepsJoin(targets, source, TargetsOf(lines, source))
    ensures mounts.Keys == targets.Keys
    ensures forall source | source in targets ::
              && Parts(targets[source], 0) == Distinct(TargetsOf(lines, source))
              && Parts(targets[source], 0)[0] == mounts[source].target
  {
    forall source ensures source in mounts <==> source in targets {
      assert KeepsFirst(mounts, source, MountsOf(lines, source));
      assert KeepsJoin(targets, source, TargetsOf(lines, source));
      assert |TargetsOf(lines, source)| == |MountsOf(lines, source)|;
    }
    forall source | source in targets
      ensures Parts(targets[source], 0) == Distinct(TargetsOf(lines, source))
      ensures Parts(targets[source], 0)[0] == mounts[source].target
    {
      assert KeepsFirst(mounts, source, MountsOf(lines, source));
      assert KeepsJoin(targets, source, TargetsOf(lines, source));
      var all := TargetsOf(lines, source);
      EncodedParts(targets[source], all);
      DistinctStartsWithFirst(all);
    }
  }

  lemma DistinctStartsWithFirst(xs: seq<string>)
    requires xs != []
    ensures Distinct(xs) != [] && Distinct(xs)[0] == xs[0]
  {
    DistinctAppend([], xs[0]);
    assert [] + [xs[0]] == xs[..1];
    DistinctPrefix(xs, 1);
  }

  lemma {:induction false} DistinctPrefix(xs: seq<string>, n: nat)
    requires n <= |xs|
    ensures Distinct(xs[..n]) <= Distinct(xs)
    decreases |xs|
  {
    if n < |xs| {
      assert xs[..|xs| - 1][..n] == xs[..n];
      DistinctPrefix(xs[..|xs| - 1], n);
    } else {
      assert xs[..n] == xs;
    }
  }

  // ----- Which field is which -------------------------------------------------

  lemma {:induction false} ScanBehindSpace(a: string, c: char, b: string)
    requires IsSpace(c)
    ensures Scan(a + [c] + b) == (Fields(a) + Scan(b).0, Scan(b).1)
    decreases |b|
  {
    var line := a + [c] + b;
    if b == "" {
      assert line[..|line| - 1] == a && line[|line| - 1] == c;
      assert Fields(a) + [] == Fields(a);
    } else {
      var init, last := b[..|b| - 1], b[|b| - 1];
      assert line[..|line| - 1] == a + [c] + init && line[|line| - 1] == last;
      ScanBehindSpace(a, c, init);
      ScanMore(Fields(a), Scan(init).0, Scan(init).1);
    }
  }

  lemma ScanMore(a: seq<string>, b: seq<string>, current: string)
    ensures (a + b) + [current] == a + (b + [current])
  {
  }

  /** White space separates fields. */
  lemma FieldsCut(a: string, c: char, b: string)
    requires IsSpace(c)
    ensures Fields(a + [c] + b) == Fields(a) + Fields(b)
  {
    ScanBehindSpace(a, c, b);
    ScanMore(Fields(a), Scan(b).0, Scan(b).1);
  }

  lemma {:induction false} ScanWord(word: string)
    requires forall i | 0 <= i < |word| :: !IsSpace(word[i])
    ensures Scan(word) == ([], word)
  {
    if word != "" {
      ScanWord(word[..|word| - 1]);
      assert word == word[..|word| - 1] + [word[|word| - 1]];
    }
  }

  /** Text without white space is one field. */
  lemma FieldsOfWord(word: string)
    requires IsWord(word)
    ensures Fields(word) == [word] && Fields("") == []
  {
    ScanWord(word);
  }

  lemma FourFields(a: string, b: string, c: string, d: string, rest: string)
    requires IsWord(a) && IsWord(b) && IsWord(c) && IsWord(d)
    ensures Fields(a + " " + (b + " " + (c + " " + (d + " " + rest)))) == [a, b, c, d] + Fields(rest)
  {
    var fourth := d + " " + rest;
    var third := c + " " + fourth;
    var second := b + " " + third;
    FirstField(d, rest);
    FirstField(c, fourth);
    FirstField(b, third);
    FirstField(a, second);
    Four(a, b, c, d, Fields(rest));
  }

  lemma Four(a: string, b: string, c: string, d: string, rest: seq<string>)
    ensures [a] + ([b] + ([c] + ([d] + rest))) == [a, b, c, d] + rest
  {
  }

  lemma FirstField(word: string, rest: string)
    requires IsWord(word)
    ensures Fields(word + " " + rest) == [word] + Fields(rest)
  {
    FieldsOfWord(word);
    FieldsCut(word, ' ', rest);
  }

  /** The source is the first field of a line and the target the second; the type and
      the options follow, and what stands behind them does not count. */
  lemma MountRead(source: string, target: string, fstype: string, options: string, rest: string)
    requires IsWord(source) && IsWord(target) && IsWord(fstype) && IsWord(options)
    ensures MountOf(source + " " + (target + " " + (fstype + " " + (options + " " + rest))))
            == Some(Mount(source, target, fstype, options))
    ensures MountOf(source + " " + (target + " " + fstype)) == None
  {
    FourFields(source, target, fstype, options, rest);
    FieldsOfWord(fstype);
    FirstField(target, fstype);
    FirstField(source, target + " " + fstype);
  }
}
