/** The text helpers of legacy/gui/src/EvidenceParser.cpp. */
module LegacyText {

  predicate IsBlank(c: char) { c == ' ' || c == '\t' || c == '\r' || c == '\n' }

  function TrimStart(s: string): string {
    if s != "" && IsBlank(s[0]) then TrimStart(s[1..]) else s
  }

  function TrimEnd(s: string): string {
    if s != "" && IsBlank(s[|s| - 1]) then TrimEnd(s[..|s| - 1]) else s
  }

  function Trim(s: string): string { TrimEnd(TrimStart(s)) }

  /** The lines that a newline ends, without their carriage returns. */
  function EndedLines(text: string): seq<string> {
    if text == "" then []
    else if text[|text| - 1] == '\n' then EndedLines(text[..|text| - 1]) + [OpenLine(text[..|text| - 1])]
    else EndedLines(text[..|text| - 1])
  }

  /** The line that no newline has ended yet. */
  function OpenLine(text: string): string {
    if text == "" || text[|text| - 1] == '\n' then ""
    else OpenLine(text[..|text| - 1]) + if text[|text| - 1] == '\r' then "" else [text[|text| - 1]]
  }

  /** The lines of a text: a last line without newline counts unless it is empty. */
  function Lines(text: string): seq<string> {
    EndedLines(text) + if OpenLine(text) == "" then [] else [OpenLine(text)]
  }

  // ----- What trimming and splitting come to -----------------------------------

  predicate AllBlank(s: string) {
    forall i | 0 <= i < |s| :: IsBlank(s[i])
  }

  /** No blank at either end. */
  predicate IsTrimmed(s: string) {
    s == "" || (!IsBlank(s[0]) && !IsBlank(s[|s| - 1]))
  }

  lemma {:induction false} TrimmedStart(s: string) returns (front: string)
    ensures s == front + TrimStart(s) && AllBlank(front)
    ensures TrimStart(s) == "" || !IsBlank(TrimStart(s)[0])
  {
    if s != "" && IsBlank(s[0]) {
      var rest := TrimmedStart(s[1..]);
      front := [s[0]] + rest;
      assert s == [s[0]] + s[1..];
    } else {
      front := "";
    }
  }

  lemma {:induction false} TrimmedEnd(s: string) returns (back: string)
    ensures s == TrimEnd(s) + back && AllBlank(back)
    ensures TrimEnd(s) == "" || !IsBlank(TrimEnd(s)[|TrimEnd(s)| - 1])
  {
    if s != "" && IsBlank(s[|s| - 1]) {
      var rest := TrimmedEnd(s[..|s| - 1]);
      back := rest + [s[|s| - 1]];
      assert s == s[..|s| - 1] + [s[|s| - 1]];
    } else {
      back := "";
    }
  }

  /** Trimming takes blanks off both ends, and all of them. */
  lemma TrimMeaning(s: string) returns (front: string, back: string)
    ensures s == front + Trim(s) + back && AllBlank(front) && AllBlank(back) && IsTrimmed(Trim(s))
  {
    front := TrimmedStart(s);
    back := TrimmedEnd(TrimStart(s));
    assert Trim(s) != "" ==> Trim(s)[0] == TrimStart(s)[0];
  }

  function WithoutReturns(text: string): string {
    if text == "" then ""
    else WithoutReturns(text[..|text| - 1]) + if text[|text| - 1] == '\r' then "" else [text[|text| - 1]]
  }

  /** The lines, each with a newline behind it. */
  function Written(lines: seq<string>): string {
    if lines == [] then "" else Written(lines[..|lines| - 1]) + lines[|lines| - 1] + "\n"
  }

  predicate IsLine(line: string) { '\n' !in line && '\r' !in line }

  lemma OneMoreChar(text: string, c: char)
    ensures EndedLines(text + [c]) == if c == '\n' then EndedLines(text) + [OpenLine(text)] else EndedLines(text)
    ensures OpenLine(text + [c])
            == if c == '\n' then "" else if c == '\r' then OpenLine(text) else OpenLine(text) + [c]
    ensures WithoutReturns(text + [c]) == if c == '\r' then WithoutReturns(text) else WithoutReturns(text) + [c]
  {
    assert (text + [c])[..|text|] == text;
    assert OpenLine(text) + "" == OpenLine(text) && WithoutReturns(text) + "" == WithoutReturns(text);
  }

  /** Carriage returns play no part. */
  lemma {:induction false} ReturnsIgnored(text: string)
    ensures EndedLines(WithoutReturns(text)) == EndedLines(text) && OpenLine(WithoutReturns(text)) == OpenLine(text)
  {
    if text != "" {
      var init, c := text[..|text| - 1], text[|text| - 1];
      assert text == init + [c];
      ReturnsIgnored(init);
      OneMoreChar(init, c);
      if c != '\r' {
        OneMoreChar(WithoutReturns(init), c);
      }
    }
  }

  lemma {:induction false} LineBehind(text: string, line: string)
    requires IsLine(line)
    ensures EndedLines(text + line) == EndedLines(text) && OpenLine(text + line) == OpenLine(text) + line
    decreases |line|
  {
    if line == "" {
      assert text + line == text;
    } else {
      var init, c := line[..|line| - 1], line[|line| - 1];
      LineBehind(text, init);
      CharBehind(text, init, c, line);
    }
  }

  lemma CharBehind(text: string, init: string, c: char, line: string)
    requires line == init + [c] && c != '\n' && c != '\r'
    requires EndedLines(text + init) == EndedLines(text) && OpenLine(text + init) == OpenLine(text) + init
    ensures EndedLines(text + line) == EndedLines(text) && OpenLine(text + line) == OpenLine(text) + line
  {
    Grouped(text, init, c);
    Grouped(OpenLine(text), init, c);
    OneMoreChar(text + init, c);
  }

  lemma Grouped(text: string, init: string, c: char)
    ensures text + (init + [c]) == (text + init) + [c]
  {
  }

  lemma {:induction false} WrittenLines(lines: seq<string>)
    requires forall i | 0 <= i < |lines| :: IsLine(lines[i])
    ensures EndedLines(Written(lines)) == lines && OpenLine(Written(lines)) == ""
  {
    if lines != [] {
      var init, last := lines[..|lines| - 1], lines[|lines| - 1];
      WrittenLines(init);
      OneMoreWritten(Written(init), last);
      assert lines == init + [last];
    }
  }

  lemma OneMoreWritten(text: string, line: string)
    requires IsLine(line) && OpenLine(text) == ""
    ensures EndedLines(text + line + "\n") == EndedLines(text) + [line] && OpenLine(text + line + "\n") == ""
  {
    LineBehind(text, line);
    OneMoreChar(text + line, '\n');
    assert "" + line == line;
  }

  /** Lines that are written are read back; the last one may lack its newline, unless it
      is empty, and carriage returns play no part. */
  lemma LinesOfWritten(lines: seq<string>, last: string, text: string)
    requires IsLine(last) && forall i | 0 <= i < |lines| :: IsLine(lines[i])
    requires WithoutReturns(text) == Written(lines) + last
    ensures Lines(text) == lines + if last == "" then [] else [last]
  {
    var written := Written(lines);
    WrittenLines(lines);
    LastLine(written, last);
    ReturnsIgnored(text);
  }

  lemma LastLine(text: string, line: string)
    requires IsLine(line) && OpenLine(text) == ""
    ensures EndedLines(text + line) == EndedLines(text) && OpenLine(text + line) == line
  {
    LineBehind(text, line);
    assert "" + line == line;
  }

  method SplitLines(text: string) returns (lines: seq<string>)
    ensures lines == Lines(text)
  {
    lines := [];
    var current := "";
    for i := 0 to |text|
      invariant lines == EndedLines(text[..i]) && current == OpenLine(text[..i])
    {
      assert text[..i + 1][..i] == text[..i];
      if text[i] == '\n' {
        lines := lines + [current];
        current := "";
      } else if text[i] != '\r' {
        current := current + [text[i]];
      }
    }
    assert text[..|text|] == text;
    if current != "" {
      lines := lines + [current];
    }
  }
}
