/** The bounded line reader of src/SystemScanner.cpp, which src/CapabilityChecker.cpp
    repeats: it reads a file in chunks of at most 65538 bytes, skips lines that are
    too long, and stops after 256 lines. */
module LineReader {
  import opened Outcomes

  type Byte = b: int | 0 <= b < 0x100
  type Bytes = seq<Byte>

  const NEWLINE: Byte := 10
  const RETURN: Byte := 13
  const MAX_LINE_BYTES := 65536
  const MAX_LINES := 256

  // ----- The file as a whole --------------------------------------------------

  /** Where the physical line that starts at pos ends, behind its newline. */
  function LineEnd(data: Bytes, pos: nat): (end: nat)
    requires pos <= |data|
    ensures pos <= end <= |data|
    ensures pos < |data| ==> pos < end
    decreases |data| - pos
  {
    if pos == |data| then pos
    else if data[pos] == NEWLINE then pos + 1
    else LineEnd(data, pos + 1)
  }

  lemma {:induction false} LineEndMeaning(data: Bytes, pos: nat)
    requires pos < |data|
    ensures var end := LineEnd(data, pos);
            && (forall k | pos <= k < end - 1 :: data[k] != NEWLINE)
            && (data[end - 1] == NEWLINE || end == |data|)
    decreases |data| - pos
  {
    if data[pos] != NEWLINE && pos + 1 < |data| {
      LineEndMeaning(data, pos + 1);
    }
  }

  lemma {:induction false} LineEndFrom(data: Bytes, pos: nat, mid: nat)
    requires pos <= |data| && pos <= mid < LineEnd(data, pos)
    ensures mid <= |data| && LineEnd(data, mid) == LineEnd(data, pos)
    decreases mid - pos
  {
    if pos < mid {
      LineEndFrom(data, pos + 1, mid);
    }
  }

  /** A chunk without its newline, if it ends with one. */
  function Chomp(raw: Bytes): Bytes {
    if raw != [] && raw[|raw| - 1] == NEWLINE then raw[..|raw| - 1] else raw
  }

  /** A line without one trailing carriage return. */
  function StripReturn(content: Bytes): Bytes {
    if content != [] && content[|content| - 1] == RETURN then content[..|content| - 1] else content
  }

  /** The physical lines from pos on, without their newlines. */
  function PhysicalLines(data: Bytes, pos: nat): seq<Bytes>
    requires pos <= |data|
    decreases |data| - pos
  {
    if pos == |data| then []
    else [Chomp(data[pos..LineEnd(data, pos)])] + PhysicalLines(data, LineEnd(data, pos))
  }

  /** The lines that are not too long, each without a trailing carriage return. */
  function Kept(lines: seq<Bytes>): seq<Bytes> {
    if lines == [] then []
    else (if |lines[0]| <= MAX_LINE_BYTES then [StripReturn(lines[0])] else []) + Kept(lines[1..])
  }

  function First(lines: seq<Bytes>, n: nat): seq<Bytes> {
    if n <= |lines| then lines[..n] else lines
  }

  function Joined(lines: seq<Bytes>): Bytes {
    if lines == [] then [] else if |lines| == 1 then lines[0] else lines[0] + [NEWLINE] + Joined(lines[1..])
  }

  /** The physical lines are newline-free, and joined with newlines they are the
      file, up to a final newline. */
  lemma {:induction false} PhysicalLinesSplit(data: Bytes, pos: nat)
    requires pos <= |data|
    ensures forall line | line in PhysicalLines(data, pos) :: NEWLINE !in line
    ensures data[pos..] == Joined(PhysicalLines(data, pos))
            || data[pos..] == Joined(PhysicalLines(data, pos)) + [NEWLINE]
    decreases |data| - pos
  {
    if pos < |data| {
      var end := LineEnd(data, pos);
      LineEndMeaning(data, pos);
      PhysicalLinesSplit(data, end);
      var raw, rest := data[pos..end], PhysicalLines(data, end);
      assert data[pos..] == raw + data[end..];
      assert raw[|raw| - 1] == data[end - 1];
      ChompLine(raw);
      FirstJoined(raw, rest, data[end..]);
    }
  }

  lemma ChompLine(raw: Bytes)
    requires raw != [] && forall k | 0 <= k < |raw| - 1 :: raw[k] != NEWLINE
    ensures NEWLINE !in Chomp(raw)
    ensures raw == Chomp(raw) + if raw[|raw| - 1] == NEWLINE then [NEWLINE] else []
  {
  }

  /** One line more in front: the bytes that are joined from the lines, up to a newline. */
  lemma FirstJoined(raw: Bytes, rest: seq<Bytes>, data: Bytes)
    requires raw != [] && raw == Chomp(raw) + if raw[|raw| - 1] == NEWLINE then [NEWLINE] else []
    requires data == Joined(rest) || data == Joined(rest) + [NEWLINE]
    requires (rest == [] <==> data == []) && (raw[|raw| - 1] != NEWLINE ==> data == [])
    ensures var all := Joined([Chomp(raw)] + rest); raw + data == all || raw + data == all + [NEWLINE]
  {
    var lines := [Chomp(raw)] + rest;
    assert lines[1..] == rest;
    if rest == [] {
      assert raw + data == raw && lines == [Chomp(raw)];
    } else {
      assert raw + data == Chomp(raw) + [NEWLINE] + data;
    }
  }

  // ----- The file handle ------------------------------------------------------

  class File {
    const data: Bytes
    var pos: nat

    constructor (data: Bytes)
      ensures this.data == data && pos == 0
    {
      this.data, pos := data, 0;
    }

    predicate AtEnd()
      reads this
    {
      pos >= |data|
    }

    /** QFile::readLine: up to a newline, the end, or max bytes. */
    method ReadChunk(max: nat) returns (raw: Bytes)
      requires pos <= |data|
      modifies this
      ensures old(pos) <= pos <= |data| && raw == data[old(pos)..pos]
      ensures pos == if old(pos) + max < LineEnd(data, old(pos)) then old(pos) + max else LineEnd(data, old(pos))
    {
      ghost var start := pos;
      raw := [];
      while pos < |data| && |raw| < max
        invariant start <= pos <= |data| && pos == start + |raw| && |raw| <= max
        invariant raw == data[start..pos]
        invariant LineEnd(data, pos) == LineEnd(data, start)
        decreases |data| - pos
      {
        var c := data[pos];
        raw := raw + [c];
        pos := pos + 1;
        if c == NEWLINE {
          return;
        }
      }
    }
  }

  // ----- The reader -----------------------------------------------------------

  class BoundedLineReader {
    const file: File
    var linesRead: nat

    constructor (file: File)
      ensures this.file == file && linesRead == 0
    {
      this.file, linesRead := file, 0;
    }

    predicate HasMore()
      reads this, file
    {
      linesRead < MAX_LINES && !file.AtEnd()
    }

    /** Reads one physical line, in as many chunks as it takes: a line that is too
        long is consumed to its end and skipped. */
    method ReadLine() returns (r: Option<Bytes>)
      requires file.pos <= |file.data|
      modifies this, file
      ensures file.pos <= |file.data|
      ensures var pos, data := old(file.pos), file.data;
              var content := Chomp(data[pos..LineEnd(data, pos)]);
              if old(HasMore()) then
                && file.pos == LineEnd(data, pos) > pos
                && linesRead == old(linesRead) + 1
                && r == if |content| <= MAX_LINE_BYTES then Some(StripReturn(content)) else None
              else r == None && file.pos == pos && linesRead == old(linesRead)
    {
      if linesRead >= MAX_LINES {
        return None;
      }
      var data := file.data;
      ghost var start, end := file.pos, LineEnd(file.data, file.pos);
      var draining := false;
      while true
        invariant start <= file.pos <= |data|
        invariant file.pos == end ==> start == |data|
        invariant LineEnd(data, file.pos) == end
        invariant !draining ==> file.pos == start && linesRead == old(linesRead)
        invariant draining ==> linesRead == old(linesRead) + 1 && |Chomp(data[start..end])| > MAX_LINE_BYTES
        invariant old(linesRead) < MAX_LINES
        decreases end - file.pos, if draining then 0 else 1
      {
        ghost var before := file.pos;
        var raw := file.ReadChunk(MAX_LINE_BYTES + 2);
        if raw == [] {
          return None;
        }
        LineEndMeaning(data, before);
        assert raw[|raw| - 1] == data[file.pos - 1];
        var ended := raw[|raw| - 1] == NEWLINE;
        var complete := ended || file.AtEnd();
        assert complete <==> file.pos == end;
        if file.pos < end {
          LineEndFrom(data, before, file.pos);
        }
        var content := |raw| - (if ended then 1 else 0);
        if draining {
          if complete { return None; }
          continue;
        }
        if content > MAX_LINE_BYTES {
          linesRead := linesRead + 1;
          if complete { return None; }
          draining := true;
          continue;
        }
        if raw[|raw| - 1] == NEWLINE {
          raw := raw[..|raw| - 1];
        }
        if raw != [] && raw[|raw| - 1] == RETURN {
          raw := raw[..|raw| - 1];
        }
        linesRead := linesRead + 1;
        return Some(raw);
      }
    }
  }

  /** What is left to read with the remaining budget. */
  function Remaining(data: Bytes, pos: nat, budget: nat): seq<Bytes>
    requires pos <= |data|
  {
    Kept(First(PhysicalLines(data, pos), budget))
  }

  lemma RemainingStep(data: Bytes, pos: nat, budget: nat)
    requires pos < |data| && budget > 0
    ensures var content := Chomp(data[pos..LineEnd(data, pos)]);
            Remaining(data, pos, budget)
            == (if |content| <= MAX_LINE_BYTES then [StripReturn(content)] else [])
               + Remaining(data, LineEnd(data, pos), budget - 1)
  {
    var lines := PhysicalLines(data, pos);
    assert lines[1..] == PhysicalLines(data, LineEnd(data, pos));
    assert First(lines, budget)[1..] == First(lines[1..], budget - 1);
  }

  lemma NothingRemains(data: Bytes, pos: nat, budget: nat)
    requires pos <= |data| && (budget == 0 || pos == |data|)
    ensures Remaining(data, pos, budget) == []
  {
  }

  /** The loop all three callers run: every line that was read, oversized lines
      skipped. */
  method ReadAll(file: File) returns (lines: seq<Bytes>)
    requires file.pos == 0
    modifies file
    ensures lines == Kept(First(PhysicalLines(file.data, 0), 256))
  {
    var reader := new BoundedLineReader(file);
    lines := [];
    ghost var promised := Remaining(file.data, 0, MAX_LINES);
    while reader.HasMore()
      invariant reader.file == file && file.pos <= |file.data|
      invariant reader.linesRead <= MAX_LINES
      invariant promised == lines + Remaining(file.data, file.pos, MAX_LINES - reader.linesRead)
      decreases |file.data| - file.pos
    {
      ghost var pos, budget := file.pos, MAX_LINES - reader.linesRead;
      RemainingStep(file.data, pos, budget);
      var line := reader.ReadLine();
      ghost var rest := Remaining(file.data, file.pos, budget - 1);
      assert Remaining(file.data, pos, budget) == (if line.Some? then [line.value] else []) + rest;
      if line.None? {
        assert Remaining(file.data, pos, budget) == rest;
        continue;
      }
      assert lines + ([line.value] + rest) == (lines + [line.value]) + rest;
      lines := lines + [line.value];
    }
    NothingRemains(file.data, file.pos, MAX_LINES - reader.linesRead);
  }

  // ----- Line ends ------------------------------------------------------------

  /** The lines, each with a carriage return behind it. */
  function Returned(lines: seq<Bytes>): seq<Bytes> {
    if lines == [] then [] else [lines[0] + [RETURN]] + Returned(lines[1..])
  }

  /** One carriage return is taken off each line, and lines without one stay as they are. */
  lemma {:induction false} ReturnsTaken(lines: seq<Bytes>)
    requires forall i | 0 <= i < |lines| :: |lines[i]| < 65536
    ensures Kept(Returned(lines)) == lines
    ensures (forall i | 0 <= i < |lines| :: lines[i] == [] || lines[i][|lines[i]| - 1] != 13) ==> Kept(lines) == lines
  {
    if lines != [] {
      var first, rest := lines[0], lines[1..];
      ReturnsTaken(rest);
      assert lines == [first] + rest;
      ReturnTaken(first);
      KeptCons(first + [RETURN], Returned(rest));
      KeptCons(first, rest);
    }
  }

  lemma ReturnTaken(line: Bytes)
    ensures StripReturn(line + [RETURN]) == line
  {
    assert (line + [RETURN])[..|line|] == line;
  }

  lemma KeptCons(line: Bytes, rest: seq<Bytes>)
    ensures Kept([line] + rest) == (if |line| <= 65536 then [StripReturn(line)] else []) + Kept(rest)
  {
    assert ([line] + rest)[1..] == rest;
  }

  /** A line of more than 65536 bytes is left out, and the lines around it stay. */
  lemma {:induction false} LongLeftOut(before: seq<Bytes>, line: Bytes, behind: seq<Bytes>)
    requires |line| > 65536
    ensures Kept(before + [line] + behind) == Kept(before) + Kept(behind)
  {
    if before == [] {
      KeptCons(line, behind);
      assert before + [line] + behind == [line] + behind;
    } else {
      var first, rest := before[0], before[1..];
      LongLeftOut(rest, line, behind);
      KeptCons(first, rest + [line] + behind);
      KeptCons(first, rest);
      assert before == [first] + rest && before + [line] + behind == [first] + (rest + [line] + behind);
    }
  }
}
