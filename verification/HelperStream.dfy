/** The output stream of legacy/gui/src/HelperRunner.cpp: chunks become lines, and
    the end of the helper is reported from a read, an exit signal or a poll. */
module HelperStream {
  import opened Outcomes

  // ----- Lines of a text ------------------------------------------------------

  /** The lines that a newline has ended. */
  function Ended(text: string): seq<string> {
    if text == "" then []
    else if text[|text| - 1] == '\n' then Ended(text[..|text| - 1]) + [Open(text[..|text| - 1])]
    else Ended(text[..|text| - 1])
  }

  /** What stands behind the last newline. */
  function Open(text: string): string {
    if text == "" || text[|text| - 1] == '\n' then ""
    else Open(text[..|text| - 1]) + [text[|text| - 1]]
  }

  function StripReturn(line: string): string {
    if line != "" && line[|line| - 1] == '\r' then line[..|line| - 1] else line
  }

  function Stripped(lines: seq<string>): seq<string> {
    seq(|lines|, i requires 0 <= i < |lines| => StripReturn(lines[i]))
  }

  /** The lines of a whole output: a last line without newline counts unless it is
      empty. */
  function AllLines(text: string): seq<string> {
    Stripped(Ended(text)) + if Open(text) == "" then [] else [StripReturn(Open(text))]
  }

  /** Cutting a text anywhere and carrying the open line over changes nothing. */
  lemma {:induction false} CutAnywhere(a: string, b: string)
    ensures Ended(a + b) == Ended(a) + Ended(Open(a) + b)
    ensures Open(a + b) == Open(Open(a) + b)
    decreases |b|
  {
    if b == "" {
      assert a + b == a && Open(a) + b == Open(a);
      OpenHasNoLines(a);
    } else {
      var init := b[..|b| - 1];
      CutAnywhere(a, init);
      assert (a + b)[..|a + b| - 1] == a + init;
      assert (Open(a) + b)[..|Open(a) + b| - 1] == Open(a) + init;
    }
  }

  lemma {:induction false} OpenHasNoLines(text: string)
    ensures Ended(Open(text)) == [] && Open(Open(text)) == Open(text)
  {
    if text != "" && text[|text| - 1] != '\n' {
      OpenHasNoLines(text[..|text| - 1]);
      assert Open(text)[..|Open(text)| - 1] == Open(text[..|text| - 1]);
    }
  }

  lemma {:induction false} LineHasNoLines(line: string)
    requires '\n' !in line
    ensures Ended(line) == [] && Open(line) == line
  {
    if line != "" {
      LineHasNoLines(line[..|line| - 1]);
    }
  }

  /** A text that starts with a whole line. */
  lemma FirstLine(line: string, rest: string)
    requires '\n' !in line
    ensures Ended(line + "\n" + rest) == [line] + Ended(rest)
    ensures Open(line + "\n" + rest) == Open(rest)
  {
    var head := line + "\n";
    LineHasNoLines(line);
    assert head[..|head| - 1] == line;
    CutAnywhere(head, rest);
    assert Open(head) + rest == rest;
  }

  lemma StrippedAppend(a: seq<string>, b: seq<string>)
    ensures Stripped(a + b) == Stripped(a) + Stripped(b)
  {
  }

  lemma FirstEmitted(text: string, newline: nat)
    requires newline < |text| && text[newline] == '\n' && '\n' !in text[..newline]
    ensures Stripped(Ended(text)) == [StripReturn(text[..newline])] + Stripped(Ended(text[newline + 1..]))
    ensures Open(text) == Open(text[newline + 1..])
  {
    var line, rest := text[..newline], text[newline + 1..];
    assert text == line + "\n" + rest;
    FirstOut(text, line, rest);
  }

  lemma FirstOut(text: string, line: string, rest: string)
    requires text == line + "\n" + rest && '\n' !in line
    ensures Stripped(Ended(text)) == [StripReturn(line)] + Stripped(Ended(rest)) && Open(text) == Open(rest)
  {
    FirstLine(line, rest);
    StrippedFirst(line, Ended(rest));
  }

  lemma StrippedFirst(line: string, lines: seq<string>)
    ensures Stripped([line] + lines) == [StripReturn(line)] + Stripped(lines)
  {
  }

  // ----- The runner's state and its steps -------------------------------------

  /** What finished() says; the process it was said about, if one had started. */
  datatype Report = Report(process: Option<nat>, success: bool, code: int)

  datatype Runner = Runner(buffer: string, process: Option<nat>, reported: bool,
                           emitted: seq<string>, finished: seq<Report>)

  const ALREADY_RUNNING := "ERROR: a helper command is already running."

  /** Everything in the buffer that is a whole line is emitted. */
  function Flushed(r: Runner): Runner {
    r.(buffer := Open(r.buffer), emitted := r.emitted + Stripped(Ended(r.buffer)))
  }

  function AfterRead(r: Runner, chunk: string): Runner {
    if r.process.None? then r else Flushed(r.(buffer := r.buffer + chunk))
  }

  function AfterExit(r: Runner, chunk: string, normal: bool, code: int): Runner {
    if r.process.None? || r.reported then r
    else
      var f := Flushed(r.(buffer := r.buffer + chunk));
      f.(buffer := "",
         emitted := f.emitted + (if f.buffer == "" then [] else [StripReturn(f.buffer)]),
         reported := true, process := None,
         finished := f.finished + [Report(r.process, normal && code == 0, if normal then code else -1)])
  }

  function AfterPoll(r: Runner, running: bool, chunk: string, normal: bool, code: int): Runner {
    if r.process.None? || running then r else AfterExit(r, chunk, normal, code)
  }

  /** run() past its refusals: a running helper is left alone, otherwise a new
      process replaces the old one, or fails to start. */
  function AfterRun(r: Runner, running: bool, id: nat, starts: bool, error: string): Runner {
    if r.process.Some? && running then r.(emitted := r.emitted + [ALREADY_RUNNING])
    else if starts then r.(buffer := "", reported := false, process := Some(id))
    else r.(buffer := "", reported := false, process := None, emitted := r.emitted + [error],
            finished := r.finished + [Report(None, false, -1)])
  }

  class HelperRunner {
    var buffer: string
    var process: Option<nat>
    var reported: bool
    // What the two signals have carried.
    var emitted: seq<string>
    var finished: seq<Report>

    function Value(): Runner
      reads this
    {
      Runner(buffer, process, reported, emitted, finished)
    }

    constructor ()
      ensures Value() == Runner("", None, false, [], [])
    {
      buffer, process, reported, emitted, finished := "", None, false, [], [];
    }

    method FindNewline() returns (newline: int)
      ensures newline < 0 ==> '\n' !in buffer
      ensures newline >= 0 ==> newline < |buffer| && buffer[newline] == '\n' && '\n' !in buffer[..newline]
    {
      for i := 0 to |buffer|
        invariant '\n' !in buffer[..i]
      {
        if buffer[i] == '\n' {
          return i;
        }
      }
      return -1;
    }

    method FlushBufferedLines()
      modifies this`buffer, this`emitted
      ensures Value() == Flushed(old(Value()))
    {
      ghost var was := buffer;
      var newline := FindNewline();
      while newline >= 0
        invariant newline < 0 ==> '\n' !in buffer
        invariant newline >= 0 ==> newline < |buffer| && buffer[newline] == '\n' && '\n' !in buffer[..newline]
        invariant emitted + Stripped(Ended(buffer)) == old(emitted) + Stripped(Ended(was))
        invariant Open(buffer) == Open(was)
        decreases |buffer|
      {
        var line := buffer[..newline];
        FirstEmitted(buffer, newline);
        buffer := buffer[newline + 1..];
        line := StripReturn(line);
        emitted := emitted + [line];
        newline := FindNewline();
      }
      LineHasNoLines(buffer);
    }

    method ReadOutput(chunk: string)
      modifies this`buffer, this`emitted
      ensures Value() == AfterRead(old(Value()), chunk)
    {
      if process.None? {
        return;
      }
      buffer := buffer + chunk;
      FlushBufferedLines();
    }

    method ProcessExited(chunk: string, normal: bool, code: int)
      modifies this
      ensures Value() == AfterExit(old(Value()), chunk, normal, code)
    {
      if process.None? || reported {
        return;
      }
      buffer := buffer + chunk;
      FlushBufferedLines();
      if buffer != "" {
        var line := StripReturn(buffer);
        buffer := "";
        emitted := emitted + [line];
      }
      reported := true;
      var finishedProcess := process;
      process := None;
      finished := finished + [Report(finishedProcess, normal && code == 0, if normal then code else -1)];
    }

    method PollFinished(running: bool, chunk: string, normal: bool, code: int) returns (done: bool)
      modifies this
      ensures Value() == AfterPoll(old(Value()), running, chunk, normal, code)
      ensures done <==> old(process).Some? && !running
    {
      if process.None? || running {
        return false;
      }
      ProcessExited(chunk, normal, code);
      return true;
    }

    method Run(running: bool, id: nat, starts: bool, error: string) returns (ok: bool)
      modifies this
      ensures Value() == AfterRun(old(Value()), running, id, starts, error)
      ensures ok <==> starts && !(old(process).Some? && running)
    {
      if process.Some? && running {
        emitted := emitted + [ALREADY_RUNNING];
        return false;
      }
      buffer := "";
      reported := false;
      process := Some(id);
      if !starts {
        emitted := emitted + [error];
        process := None;
        finished := finished + [Report(None, false, -1)];
        return false;
      }
      return true;
    }
  }

  // ----- One run --------------------------------------------------------------

  datatype Event =
    | Read(chunk: string)
    | Exit(chunk: string, normal: bool, code: int)
    | Poll(running: bool, chunk: string, normal: bool, code: int)

  function Step(r: Runner, e: Event): Runner {
    match e
    case Read(chunk) => AfterRead(r, chunk)
    case Exit(chunk, normal, code) => AfterExit(r, chunk, normal, code)
    case Poll(running, chunk, normal, code) => AfterPoll(r, running, chunk, normal, code)
  }

  function Steps(r: Runner, events: seq<Event>): Runner {
    if events == [] then r else Step(Steps(r, events[..|events| - 1]), events[|events| - 1])
  }

  /** The event sees that the child is gone. */
  predicate SeesEnd(e: Event) { e.Exit? || (e.Poll? && !e.running) }

  /** The first event that sees the child gone, or None. */
  function EndOf(events: seq<Event>): (end: Option<Event>)
    ensures end.Some? ==> SeesEnd(end.value)
  {
    if events == [] then None
    else if EndOf(events[..|events| - 1]).Some? then EndOf(events[..|events| - 1])
    else if SeesEnd(events[|events| - 1]) then Some(events[|events| - 1]) else None
  }

  /** All output read up to and including the end of the run. */
  function Output(events: seq<Event>): string {
    if events == [] then ""
    else
      var init, e := events[..|events| - 1], events[|events| - 1];
      if EndOf(init).Some? then Output(init)
      else Output(init) + if e.Read? || SeesEnd(e) then e.chunk else ""
  }

  /** The runner while a run streams: whole lines are out, the open line is kept. */
  function Streaming(r: Runner, output: string): Runner {
    r.(buffer := Open(output), emitted := r.emitted + Stripped(Ended(output)))
  }

  /** The runner once the end of the run has been seen. */
  function Reported(r: Runner, output: string, end: Event): Runner
    requires SeesEnd(end)
  {
    r.(process := None, reported := true, emitted := r.emitted + AllLines(output),
       finished := r.finished
                   + [Report(r.process, end.normal && end.code == 0, if end.normal then end.code else -1)])
  }

  lemma StreamOn(r: Runner, output: string, chunk: string)
    requires r.process.Some? && !r.reported && r.buffer == ""
    ensures Flushed(Streaming(r, output).(buffer := Open(output) + chunk)) == Streaming(r, output + chunk)
  {
    CutAnywhere(output, chunk);
    EmittedInTwo(r.emitted, Ended(output), Ended(Open(output) + chunk), Ended(output + chunk));
  }

  lemma EmittedInTwo(emitted: seq<string>, a: seq<string>, b: seq<string>, all: seq<string>)
    requires all == a + b
    ensures emitted + Stripped(a) + Stripped(b) == emitted + Stripped(all)
  {
    StrippedAppend(a, b);
  }

  lemma StreamEnds(r: Runner, output: string, end: Event)
    requires r.process.Some? && !r.reported && r.buffer == "" && SeesEnd(end)
    ensures Step(Streaming(r, output), end) == Reported(r, output + end.chunk, end)
  {
    StreamOn(r, output, end.chunk);
    var s := Streaming(r, output + end.chunk);
    assert AllLines(output + end.chunk)
           == Stripped(Ended(output + end.chunk)) + if s.buffer == "" then [] else [StripReturn(s.buffer)];
  }

  /** However the output of a run is cut into chunks and however reads, exit signals
      and polls interleave: the lines emitted are those of the whole output, and the
      run is reported exactly once, by the first event that sees the child gone. */
  lemma {:induction false} RunStream(r: Runner, events: seq<Event>)
    requires r.process.Some? && !r.reported && r.buffer == ""
    ensures EndOf(events).None? ==> Steps(r, events) == Streaming(r, Output(events))
    ensures EndOf(events).Some? ==> Steps(r, events) == Reported(r, Output(events), EndOf(events).value)
  {
    if events == [] {
      assert r.emitted + [] == r.emitted;
    } else {
      var init, e := events[..|events| - 1], events[|events| - 1];
      RunStream(r, init);
      if EndOf(init).None? {
        if SeesEnd(e) {
          StreamEnds(r, Output(init), e);
        } else if e.Read? {
          StreamOn(r, Output(init), e.chunk);
        } else {
          assert Output(init) + "" == Output(init);
        }
      }
    }
  }

  /** Two runs with the same output, both seen to end, emit the same lines. */
  lemma ChunkIndependence(r: Runner, a: seq<Event>, b: seq<Event>)
    requires r.process.Some? && !r.reported && r.buffer == ""
    requires EndOf(a).Some? && EndOf(b).Some? && Output(a) == Output(b)
    ensures Steps(r, a).emitted == Steps(r, b).emitted
  {
    RunStream(r, a);
    RunStream(r, b);
  }

  // ----- Lines that were written ----------------------------------------------

  /** The lines, each with a newline behind it, and a carriage return before that or not. */
  function Written(lines: seq<string>, crlf: bool): string {
    if lines == [] then ""
    else lines[0] + (if crlf then "\r" else "") + "\n" + Written(lines[1..], crlf)
  }

  ghost predicate IsLine(line: string) {
    '\n' !in line && (line == "" || line[|line| - 1] != '\r')
  }

  lemma StrippedLine(line: string, crlf: bool)
    requires IsLine(line)
    ensures StripReturn(line + if crlf then "\r" else "") == line
    ensures '\n' !in line + if crlf then "\r" else ""
  {
    var text := line + if crlf then "\r" else "";
    if crlf {
      assert text[..|text| - 1] == line;
    } else {
      assert text == line;
    }
  }

  /** Output that is written line by line comes out as these lines, whatever its line
      ends; a last line may lack its newline, unless it is empty. */
  lemma {:induction false} LinesWritten(lines: seq<string>, crlf: bool, last: string)
    requires IsLine(last) && forall i | 0 <= i < |lines| :: IsLine(lines[i])
    ensures AllLines(Written(lines, crlf) + last) == lines + if last == "" then [] else [last]
  {
    if lines == [] {
      LineHasNoLines(last);
      assert "" + last == last;
    } else {
      LinesWritten(lines[1..], crlf, last);
      OneMoreWritten(lines[0], crlf, Written(lines[1..], crlf), last);
      assert lines == [lines[0]] + lines[1..];
    }
  }

  lemma OneMoreWritten(line: string, crlf: bool, text: string, last: string)
    requires IsLine(line)
    ensures AllLines(line + (if crlf then "\r" else "") + "\n" + text + last) == [line] + AllLines(text + last)
  {
    var written, rest := line + if crlf then "\r" else "", text + last;
    StrippedLine(line, crlf);
    FirstLine(written, rest);
    StrippedFirst(written, Ended(rest));
    assert written + "\n" + text + last == written + "\n" + rest;
  }
}
