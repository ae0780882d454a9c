/** src/ProgressiveDiagnosticAssembler.h: the incremental assembler of framed
    diagnostic sections, with its bounded, self-trimming line buffer. */
module SectionAssembler {
  import opened Text

  const MAX_LINES := 8192
  const DROP_CHUNK := 2048

  /** The framing of the helper's sections, and which keys take part. */
  datatype Format = Format(divider: string, marker: string, accepts: string -> bool) {
    predicate IsDivider(line: string) { line == divider }

    predicate IsMarkerLine(line: string) { marker <= line }

    function MarkerKey(line: string): string
      requires IsMarkerLine(line)
    {
      Trim(line[|marker|..])
    }
  }

  /** The framing the helper uses. */
  function HelperFormat(accepts: string -> bool): Format {
    Format("========================================", "Diagnostic: ", accepts)
  }

  // ----- The stream, seen as a whole ------------------------------------------

  /** Line i is a header that takes part. */
  predicate IsHeader(f: Format, s: seq<string>, i: int) {
    0 <= i < |s| && f.IsMarkerLine(s[i]) && f.accepts(f.MarkerKey(s[i]))
  }

  /** Divider, title, divider stand right above line i. */
  predicate Framed(f: Format, s: seq<string>, i: nat)
    requires i < |s|
  {
    && i >= 3
    && f.IsDivider(s[i - 1]) && f.IsDivider(s[i - 3])
    && s[i - 2] != "" && !f.IsDivider(s[i - 2])
  }

  function FrameStart(f: Format, s: seq<string>, i: nat): (start: nat)
    requires i < |s|
    ensures start <= i
  {
    if Framed(f, s, i) then i - 3 else i
  }

  /** A section of the stream: its lines are s[start..end], and it closes when
      closedAt lines have been fed. */
  datatype Slice = Slice(key: string, start: nat, end: nat, closedAt: nat)

  datatype Section = Section(key: string, lines: seq<string>) {
    /** What the callback stores. */
    function Stored(): string { Trim(Join(lines)) }
  }

  function Join(lines: seq<string>): string {
    if |lines| == 0 then "" else if |lines| == 1 then lines[0] else lines[0] + "\n" + Join(lines[1..])
  }

  /** The section of header i, closed by header k. */
  function Between(f: Format, s: seq<string>, i: nat, k: nat): Slice
    requires i < |s| && k < |s| && f.IsMarkerLine(s[i])
  {
    Slice(f.MarkerKey(s[i]), FrameStart(f, s, i), FrameStart(f, s, k), k + 1)
  }

  /** The section of header i, closed by the end of the stream. */
  function Final(f: Format, s: seq<string>, i: nat): Slice
    requires i < |s| && f.IsMarkerLine(s[i])
  {
    Slice(f.MarkerKey(s[i]), FrameStart(f, s, i), |s|, |s|)
  }

  /** How many of the first n lines the buffer has dropped: a full buffer of 8192
      lines shrinks to 6144, so 2049 lines go at a time. */
  function Dropped(n: nat): nat {
    if n < 6144 then 0 else 2049 * ((n - 6144) / 2049)
  }

  /** A slice is reported if it has a key and lines, and its first line is still
      buffered when it closes. */
  predicate Survives(x: Slice) {
    x.key != "" && x.start < x.end && Dropped(x.closedAt) <= x.start
  }

  function Report(s: seq<string>, x: Slice): seq<Section> {
    if Survives(x) then [Section(x.key, Lines(s, x))] else []
  }

  function Lines(s: seq<string>, x: Slice): seq<string> {
    if x.start <= x.end <= |s| then s[x.start..x.end] else []
  }

  /** The last header of the stream, or -1. */
  function LastHeader(f: Format, s: seq<string>): (i: int)
    ensures -1 <= i < |s|
    ensures i >= 0 ==> IsHeader(f, s, i)
  {
    if s == [] then -1
    else if IsHeader(f, s, |s| - 1) then |s| - 1
    else LastHeader(f, s[..|s| - 1])
  }

  /** What the sections closed by headers leave behind, one line at a time. */
  function Reported(f: Format, s: seq<string>): seq<Section> {
    if s == [] then []
    else Reported(f, s[..|s| - 1]) + ClosedByLast(f, s)
  }

  /** What the last line of the stream closes. */
  function ClosedByLast(f: Format, s: seq<string>): seq<Section>
    requires s != []
  {
    var i := LastHeader(f, s[..|s| - 1]);
    if IsHeader(f, s, |s| - 1) && i >= 0 then Report(s, Between(f, s, i, |s| - 1)) else []
  }

  /** What the end of the stream closes. */
  function ClosedByEnd(f: Format, s: seq<string>): seq<Section> {
    var i := LastHeader(f, s);
    if i >= 0 then Report(s, Final(f, s, i)) else []
  }

  /** The keys of the sections that have opened. */
  function Started(f: Format, s: seq<string>): seq<string> {
    if s == [] then []
    else Started(f, s[..|s| - 1]) + if IsHeader(f, s, |s| - 1) then [f.MarkerKey(s[|s| - 1])] else []
  }

  // ----- One more line --------------------------------------------------------

  /** The buffer never holds more than MAX_LINES lines, and the drop that keeps it
      so leaves room for a whole frame. */
  lemma DroppedStep(n: nat)
    ensures n - MAX_LINES <= Dropped(n) <= n
    ensures var size := n + 1 - Dropped(n);
            Dropped(n + 1) == if size > MAX_LINES then Dropped(n) + size - MAX_LINES + DROP_CHUNK else Dropped(n)
    ensures Dropped(n + 1) > Dropped(n) ==> n + 1 - Dropped(n + 1) >= 4
    ensures n <= MAX_LINES ==> Dropped(n) == 0
  {
  }

  lemma {:induction false} DroppedMonotone(m: nat, n: nat)
    requires m <= n
    ensures Dropped(m) <= Dropped(n)
    decreases n - m
  {
    if m < n {
      DroppedStep(n - 1);
      DroppedMonotone(m, n - 1);
    }
  }

  /** What one more line changes: nothing, unless it is a header. */
  lemma OneMoreLine(f: Format, s: seq<string>, line: string, t: seq<string>) returns (closed: seq<Section>)
    requires t == s + [line]
    ensures IsHeader(f, t, |s|) && LastHeader(f, s) < 0 ==> closed == []
    ensures IsHeader(f, t, |s|) && LastHeader(f, s) >= 0 ==>
              closed == Report(t, Between(f, t, LastHeader(f, s), |s|))
    ensures IsHeader(f, t, |s|) ==>
              && LastHeader(f, t) == |s|
              && Started(f, t) == Started(f, s) + [f.MarkerKey(line)]
              && Reported(f, t) == Reported(f, s) + closed
    ensures !IsHeader(f, t, |s|) ==>
              && LastHeader(f, t) == LastHeader(f, s)
              && Started(f, t) == Started(f, s)
              && Reported(f, t) == Reported(f, s)
  {
    assert t[..|t| - 1] == s;
    closed := ClosedByLast(f, t);
  }

  /** Where a line of the stream stands in a buffer that has dropped so many. */
  function Buffered(start: nat, dropped: nat): int {
    if dropped <= start then start - dropped else -1
  }

  /** Trimming never changes where a new frame is found: the signature test on the
      buffer finds the frame start of the whole stream. */
  lemma NewFrameFound(f: Format, s: seq<string>, dropped: nat, newFrameStart: int)
    requires dropped < |s| && (dropped == 0 || |s| - dropped >= 4)
    requires var lines := s[dropped..];
             var count := |lines|;
             newFrameStart
             == if count - 4 < 0 || !f.IsDivider(lines[count - 2]) || !f.IsDivider(lines[count - 4])
                   || lines[count - 3] == "" || f.IsDivider(lines[count - 3])
                then count - 1 else count - 4
    ensures newFrameStart == FrameStart(f, s, |s| - 1) - dropped >= 0
  {
    var lines := s[dropped..];
    assert forall k | 0 <= k < |lines| :: lines[k] == s[dropped + k];
  }

  /** Reporting from the buffer is reporting from the stream. */
  lemma BufferedReport(s: seq<string>, d: nat, x: Slice)
    requires x.closedAt == |s| && x.end <= |s| && d == Dropped(|s|) <= |s|
    ensures var lines, start := s[d..], Buffered(x.start, d);
            Report(s, x)
            == if x.key != "" && start >= 0 && start < x.end - d
               then [Section(x.key, lines[start..x.end - d])] else []
  {
    if d <= x.start < x.end {
      BufferedLines(s, d, x.start, x.end);
    }
  }

  lemma BufferedLines(s: seq<string>, d: nat, start: nat, end: nat)
    requires d <= start <= end <= |s|
    ensures s[d..][start - d..end - d] == s[start..end]
  {
  }

  /** What the end of the stream closes, by the two fields. */
  lemma EndReport(f: Format, s: seq<string>, d: nat, key: string, start: int)
    requires d == Dropped(|s|) <= |s| && Pending(f, s, d, LastHeader(f, s), key, start)
    ensures ClosedByEnd(f, s)
            == if key != "" && start >= 0 && start < |s| - d then [Section(key, s[d..][start..|s| - d])] else []
  {
    var i := LastHeader(f, s);
    if i >= 0 {
      BufferedReport(s, d, Final(f, s, i));
    }
  }

  /** The open section, as the two fields describe it, is that of header i. */
  ghost predicate Pending(f: Format, s: seq<string>, dropped: nat, i: int, key: string, start: int) {
    && i < |s|
    && (i < 0 ==> key == "" && start == -1)
    && (i >= 0 ==>
          && f.IsMarkerLine(s[i])
          && key == f.MarkerKey(s[i])
          && start == Buffered(FrameStart(f, s, i), dropped))
  }

  lemma PendingMore(f: Format, s: seq<string>, line: string, dropped: nat, i: int, key: string, start: int)
    requires Pending(f, s, dropped, i, key, start)
    ensures Pending(f, s + [line], dropped, i, key, start)
  {
    if i >= 0 {
      assert forall k | 0 <= k < |s| :: (s + [line])[k] == s[k];
    }
  }

  lemma PendingDropped(f: Format, s: seq<string>, dropped: nat, drop: nat, i: int, key: string, start: int)
    requires Pending(f, s, dropped, i, key, start)
    ensures Pending(f, s, dropped + drop, i, key, if start >= drop then start - drop else -1)
  {
  }

  lemma DropMore(s: seq<string>, dropped: nat, drop: nat)
    requires dropped + drop <= |s|
    ensures s[dropped..][drop..] == s[dropped + drop..]
  {
  }

  /** What a report of the open section up to a place of the buffer holds. */
  function OpenUpTo(lines: seq<string>, key: string, start: int, end: int): seq<Section> {
    if key != "" && 0 <= start < end <= |lines| then [Section(key, lines[start..end])] else []
  }

  /** Reporting the open section i up to a new frame is the report that closes it. */
  lemma ClosedSection(f: Format, s: seq<string>, d: nat, i: int, key: string, start: int, newStart: int,
      closed: seq<Section>)
    requires d == Dropped(|s|) < |s| && Pending(f, s, d, i, key, start)
    requires f.IsMarkerLine(s[|s| - 1]) && newStart == FrameStart(f, s, |s| - 1) - d
    requires closed == if i < 0 then [] else Report(s, Between(f, s, i, |s| - 1))
    ensures closed == OpenUpTo(s[d..], key, start, newStart)
  {
    if i >= 0 {
      BufferedReport(s, d, Between(f, s, i, |s| - 1));
    }
  }

  lemma HeaderStarts(f: Format, s: seq<string>)
    requires s != [] && IsHeader(f, s, |s| - 1)
    ensures LastHeader(f, s) == |s| - 1
    ensures Started(f, s) == Started(f, s[..|s| - 1]) + [f.MarkerKey(s[|s| - 1])]
  {
  }

  lemma HeaderReports(f: Format, s: seq<string>, d: nat, key: string, start: int, newStart: int)
    requires s != [] && IsHeader(f, s, |s| - 1) && d == Dropped(|s|) < |s| && (d == 0 || |s| - d >= 4)
    requires Pending(f, s, d, LastHeader(f, s[..|s| - 1]), key, start)
    requires newStart == FrameStart(f, s, |s| - 1) - d
    ensures Reported(f, s) == Reported(f, s[..|s| - 1]) + OpenUpTo(s[d..], key, start, newStart)
    ensures Pending(f, s, d, |s| - 1, f.MarkerKey(s[|s| - 1]), newStart)
  {
    ClosedSection(f, s, d, LastHeader(f, s[..|s| - 1]), key, start, newStart, ClosedByLast(f, s));
  }

  /** Whether the line just fed is a header. */
  lemma LastIsHeader(f: Format, s: seq<string>, line: string)
    requires s != [] && s[|s| - 1] == line
    ensures IsHeader(f, s, |s| - 1) <==> f.IsMarkerLine(line) && f.accepts(f.MarkerKey(line))
  {
  }

  // ----- The assembler --------------------------------------------------------

  class Assembler {
    const f: Format
    var lines: seq<string>
    var pendingKey: string
    var frameStart: int
    // What the two callbacks have received.
    var reported: seq<Section>
    var started: seq<string>
    // Every line fed so far.
    ghost var fed: seq<string>
    ghost var finished: bool
    // How many of them the buffer no longer holds.
    ghost var dropped: nat

    ghost predicate Valid()
      reads this
    {
      && dropped == Dropped(|fed|) <= |fed| && lines == fed[dropped..]
      && started == Started(f, fed)
      && (!finished ==>
            && Pending(f, fed, dropped, LastHeader(f, fed), pendingKey, frameStart)
            && reported == Reported(f, fed))
      && (finished ==> reported == Reported(f, fed) + ClosedByEnd(f, fed))
    }

    constructor (f: Format)
      ensures Valid() && this.f == f && fed == [] && !finished
    {
      this.f := f;
      lines, pendingKey, frameStart := [], "", -1;
      reported, started, fed, finished, dropped := [], [], [], false, 0;
    }

    /** The state between the two halves of feed: the last line is in the buffer, but
        the fields still speak of the lines before it. */
    ghost predicate Appended()
      reads this
    {
      && !finished && fed != []
      && dropped == Dropped(|fed|) < |fed| && lines == fed[dropped..] && (dropped == 0 || |lines| >= 4)
      && started == Started(f, fed[..|fed| - 1]) && reported == Reported(f, fed[..|fed| - 1])
      && Pending(f, fed, dropped, LastHeader(f, fed[..|fed| - 1]), pendingKey, frameStart)
    }

    /** Appends a line and bounds the buffer.  Dropping the oldest lines shifts the
        pending frame start, or loses it. */
    method Append(line: string, ghost i: int)
      requires dropped == Dropped(|fed|) <= |fed| && lines == fed[dropped..]
      requires Pending(f, fed, dropped, i, pendingKey, frameStart)
      modifies this`lines, this`fed, this`dropped, this`frameStart
      ensures fed == old(fed) + [line]
      ensures dropped == Dropped(|fed|) < |fed| && lines == fed[dropped..]
      ensures dropped == 0 || |lines| >= 4
      ensures Pending(f, fed, dropped, i, pendingKey, frameStart)
    {
      DroppedStep(|fed|);
      ghost var was := fed;
      fed := fed + [line];
      lines := lines + [line];
      PendingMore(f, was, line, dropped, i, pendingKey, frameStart);
      assert lines == fed[dropped..];
      if |lines| > MAX_LINES {
        var drop := |lines| - MAX_LINES + DROP_CHUNK;
        DropMore(fed, dropped, drop);
        PendingDropped(f, fed, dropped, drop, i, pendingKey, frameStart);
        lines, dropped := lines[drop..], dropped + drop;
        if frameStart >= 0 {
          frameStart := frameStart - drop;
          if frameStart < 0 {
            frameStart := -1;
          }
        }
      }
      DroppedStep(|fed| - 1);
    }

    /** A line that is no header changes nothing else. */
    lemma NoHeader()
      requires Appended() && !IsHeader(f, fed, |fed| - 1)
      ensures Valid()
    {
      assert fed == fed[..|fed| - 1] + [fed[|fed| - 1]];
      var closed := OneMoreLine(f, fed[..|fed| - 1], fed[|fed| - 1], fed);
    }

    /** The new frame's opening divider stands three lines above its header; any
        other signature falls back to the header itself. */
    method FindFrameStart() returns (newFrameStart: int)
      requires dropped < |fed| && lines == fed[dropped..]
      requires dropped == 0 || |lines| >= 4
      ensures newFrameStart == FrameStart(f, fed, |fed| - 1) - dropped >= 0
    {
      var count := |lines|;
      newFrameStart := count - 4;
      if newFrameStart < 0 || !f.IsDivider(lines[count - 2]) || !f.IsDivider(lines[newFrameStart])
         || lines[count - 3] == "" || f.IsDivider(lines[count - 3]) {
        newFrameStart := count - 1;
      }
      NewFrameFound(f, fed, dropped, newFrameStart);
    }

    /** A header has arrived: reports the open section up to the new frame, and opens
        the new one there. */
    method OpenSection(key: string)
      requires dropped < |fed| && lines == fed[dropped..] && (dropped == 0 || |lines| >= 4)
      modifies this`reported, this`started, this`pendingKey, this`frameStart
      ensures pendingKey == key && frameStart == FrameStart(f, fed, |fed| - 1) - dropped >= 0
      ensures started == old(started) + [key]
      ensures reported == old(reported) + OpenUpTo(lines, old(pendingKey), old(frameStart), frameStart)
    {
      var newFrameStart := FindFrameStart();
      if pendingKey != "" && frameStart >= 0 {
        ReportSlice(pendingKey, frameStart, newFrameStart);
      }
      pendingKey := key;
      frameStart := newFrameStart;
      started := started + [key];
    }

    /** What the whole stream makes of a header line. */
    method OpenHeader(key: string)
      requires Appended() && IsHeader(f, fed, |fed| - 1) && key == f.MarkerKey(fed[|fed| - 1])
      modifies this`reported, this`started, this`pendingKey, this`frameStart
      ensures Valid() && !finished
    {
      ghost var start := FrameStart(f, fed, |fed| - 1) - dropped;
      HeaderStarts(f, fed);
      HeaderReports(f, fed, dropped, pendingKey, frameStart, start);
      OpenSection(key);
    }

    /** Feeds one streamed line. */
    method Feed(line: string)
      requires Valid() && !finished
      modifies this
      ensures Valid() && !finished
      ensures fed == old(fed) + [line]
    {
      ghost var before := fed;
      Append(line, LastHeader(f, fed));
      assert fed[..|fed| - 1] == before;
      LastIsHeader(f, fed, line);
      if !f.IsMarkerLine(line) {
        NoHeader();
        return;
      }
      var key := f.MarkerKey(line);
      if !f.accepts(key) {
        NoHeader();
        return;
      }
      OpenHeader(key);
    }

    /** Closes the last section at the end of the stream. */
    method Finish()
      requires Valid() && !finished
      modifies this
      ensures Valid() && finished && fed == old(fed)
    {
      ghost var was, more := reported, ClosedByEnd(f, fed);
      EndReport(f, fed, dropped, pendingKey, frameStart);
      if pendingKey != "" && frameStart >= 0 {
        ReportSlice(pendingKey, frameStart, |lines|);
      }
      assert reported == was + more;
      pendingKey := "";
      frameStart := -1;
      finished := true;
    }

    method ReportSlice(key: string, start: int, end: int)
      requires 0 <= start && end <= |lines|
      modifies this`reported
      ensures start < end ==> reported == old(reported) + [Section(key, lines[start..end])]
      ensures start >= end ==> reported == old(reported)
    {
      if end <= start {
        return;
      }
      var slice := [];
      for index := start to end
        invariant slice == lines[start..index]
      {
        slice := slice + [lines[index]];
      }
      reported := reported + [Section(key, slice)];
    }
  }
}
