/** When the progressive assembler stores the same text for a section as the end-of-run
    parser of src/MainWindow.cpp: the promise of src/ProgressiveDiagnosticAssembler.h,
    made exact for every header of every orderly stream. */
module EndOfRunAgreement {
  import opened Outcomes
  import opened Text
  import opened SectionAssembler
  import opened BatchSlicer
  import opened EndOfRun
  import opened SolidLines
  import opened EndOfRunCuts

  // ----- The marker at another line -------------------------------------------

  /** The lines from a pattern at the end of line i up to what precedes the divider at the
      end of line e, or up to the end of the stream. */
  function LinesBetween(f: Format, s: seq<string>, pat: string, i: nat, e: nat): seq<string>
    requires i < e <= |s| && (e < |s| ==> EndsWith(s[e], f.divider))
  {
    [pat] + s[i + 1..e] + [Before(f, s, e)]
  }

  /** The lines the parser reads when line m is the first that ends with the marker: those
      of the text that ReadAt tells.  There are none if the search upward starts over and
      meets the divider at which the section ends. */
  function ReadLines(f: Format, s: seq<string>, pat: string, m: nat): seq<string>
    requires m < |s|
  {
    var e := FirstEnding(s, f.divider, m + 1);
    var above := LastEnding(s, f.divider, m);
    if above < 0 then LinesBetween(f, s, pat, m, e)
    else if above == 0 && f.IsDivider(s[0]) then
      assert EndsWith(s[0], f.divider) by { assert s[0][0..] == s[0]; }
      var last := LastEnding(s, f.divider, |s|);
      if last == e then [] else LinesBetween(f, s, f.divider, last, if last < e then e else |s|)
    else
      var prior := LastEnding(s, f.divider, above);
      LinesBetween(f, s, f.divider, if prior >= 0 then prior else above, e)
  }

  lemma BetweenText(f: Format, s: seq<string>, pat: string, i: nat, e: nat)
    requires i < e <= |s| && (e < |s| ==> EndsWith(s[e], f.divider))
    ensures Bundle(LinesBetween(f, s, pat, i, e)) == TextBetween(f, s, pat, i, e) + "\n"
  {
    var front := [pat] + s[i + 1..e];
    BundleLast(front, Before(f, s, e));
    assert front[1..] == s[i + 1..e];
  }

  /** A section that is kept is the trimmed text of the lines between. */
  lemma KeptBetween(f: Format, s: seq<string>, pat: string, i: nat, e: nat)
    requires i < e <= |s| && (e < |s| ==> EndsWith(s[e], f.divider)) && Visible(pat)
    ensures Kept(TextBetween(f, s, pat, i, e)) == Some(Trim(Bundle(LinesBetween(f, s, pat, i, e))))
  {
    var text := TextBetween(f, s, pat, i, e);
    BetweenText(f, s, pat, i, e);
    TrimNewline(text);
    TrimHead(text);
  }

  lemma ReadIs(f: Format, s: seq<string>, pat: string, m: nat)
    requires Usable(f) && Visible(pat) && m < |s|
    ensures var lines := ReadLines(f, s, pat, m);
            ReadAt(f, s, pat, m) == if lines == [] then None else Some(Trim(Bundle(lines)))
    ensures var lines := ReadLines(f, s, pat, m);
            lines != [] ==> Visible(lines[0]) && (lines[0] == pat || lines[0] == f.divider)
  {
    var e, above := FirstEnding(s, f.divider, m + 1), LastEnding(s, f.divider, m);
    if above < 0 {
      KeptBetween(f, s, pat, m, e);
    } else if above == 0 && f.IsDivider(s[0]) {
      var last := LastEnding(s, f.divider, |s|);
      if last != e {
        KeptBetween(f, s, f.divider, last, if last < e then e else |s|);
      }
    } else {
      var prior := LastEnding(s, f.divider, above);
      KeptBetween(f, s, f.divider, if prior >= 0 then prior else above, e);
    }
  }

  lemma BetweenLined(f: Format, s: seq<string>, pat: string, i: nat, e: nat)
    requires Lined(s) && OneLine(pat) && i < e <= |s| && (e < |s| ==> EndsWith(s[e], f.divider))
    ensures Lined(LinesBetween(f, s, pat, i, e))
  {
    var lines, before := LinesBetween(f, s, pat, i, e), Before(f, s, e);
    assert OneLine(before);
    forall k | 0 <= k < |lines| ensures OneLine(lines[k]) {
      assert lines[k] == if k == 0 then pat else if k < e - i then s[i + k] else before;
    }
  }

  lemma ReadLined(f: Format, s: seq<string>, pat: string, m: nat)
    requires Usable(f) && Lined(s) && OneLine(pat) && m < |s|
    ensures Lined(ReadLines(f, s, pat, m))
  {
    var e, above := FirstEnding(s, f.divider, m + 1), LastEnding(s, f.divider, m);
    if above < 0 {
      BetweenLined(f, s, pat, m, e);
    } else if above == 0 && f.IsDivider(s[0]) {
      var last := LastEnding(s, f.divider, |s|);
      if last != e {
        BetweenLined(f, s, f.divider, last, if last < e then e else |s|);
      }
    } else {
      var prior := LastEnding(s, f.divider, above);
      BetweenLined(f, s, f.divider, if prior >= 0 then prior else above, e);
    }
  }

  /** Both texts are those of lines that begin visibly: they are the same exactly if the
      solid lines are. */
  lemma ReadAlikeIff(f: Format, s: seq<string>, pat: string, m: nat, start: nat, end: nat)
    requires Usable(f) && Lined(s) && Visible(pat) && OneLine(pat) && m < |s|
    requires start < end <= |s| && Visible(s[start])
    ensures ReadAt(f, s, pat, m) == Some(Trim(Bundle(s[start..end])))
            <==> Solid(ReadLines(f, s, pat, m)) == Solid(s[start..end])
  {
    ReadIs(f, s, pat, m);
    ReadLined(f, s, pat, m);
    NoneOrSame(ReadAt(f, s, pat, m), ReadLines(f, s, pat, m), s, start, end);
  }

  lemma NoneOrSame(read: Option<string>, lines: seq<string>, s: seq<string>, start: nat, end: nat)
    requires read == if lines == [] then None else Some(Trim(Bundle(lines)))
    requires Lined(lines) && (lines != [] ==> Visible(lines[0]))
    requires Lined(s) && start < end <= |s| && Visible(s[start])
    ensures read == Some(Trim(Bundle(s[start..end]))) <==> Solid(lines) == Solid(s[start..end])
  {
    var ours := s[start..end];
    SolidMeaning(ours);
    VisibleSolid(ours[0]);
    if lines != [] {
      SameTextIff(lines, ours);
    }
  }

  // ----- The marker below its header ------------------------------------------

  /** Line m stands in the section of header i, and is what the parser finds instead. */
  ghost predicate FoundInside(f: Format, s: seq<string>, pat: string, i: nat, m: nat, end: nat) {
    && Lined(s) && OneLine(pat) && f.marker <= pat && TrimRight(pat) == pat
    && i < m < end <= |s| && f.IsMarkerLine(s[i]) && (end < |s| ==> Ends(f, s[end]))
    && EndsWith(s[m], pat) && NoneIn(s, pat, 0, m)
  }

  /** The dividers around line m are those of the header's own frame, and below it the
      section ends at the first divider, or at the end of a stream without one. */
  ghost predicate FrameAround(f: Format, s: seq<string>, i: nat, m: nat, end: nat)
    requires i < m < end <= |s|
  {
    && Framed(f, s, i) && !EndsWith(s[i - 2], f.divider) && NoneIn(s, f.divider, i, m)
    && EndAlike(f, s, m, end)
  }

  /** A text that ends with a pattern is not blank. */
  lemma EndsSolid(line: string, pat: string)
    requires EndsWith(line, pat) && pat != "" && TrimRight(pat) == pat
    ensures TrimRight(line) != ""
  {
    TrimPrefix(pat[..|pat| - 1]);
    assert !IsSpace(pat[|pat| - 1]);
    assert line[|line| - 1] == line[|line| - |pat|..][|pat| - 1];
  }

  /** The lines of the section up to line m are solid, so the parser must have read the
      same ones. */
  lemma SameUpTo(lines: seq<string>, ours: seq<string>, n: nat, k: nat)
    requires k < n < |ours| && TrimRight(ours[n]) != "" && Solid(lines) == Solid(ours)
    ensures n < |lines| && lines[k] == ours[k]
  {
    SolidMeaning(lines);
    SolidMeaning(ours);
  }

  lemma InsideUnframed(f: Format, s: seq<string>, pat: string, i: nat, m: nat, end: nat)
    requires Usable(f) && FoundInside(f, s, pat, i, m, end)
    ensures Solid(ReadLines(f, s, pat, m)) != Solid(s[i..end])
  {
    var lines, ours := ReadLines(f, s, pat, m), s[i..end];
    ReadIs(f, s, pat, m);
    EndsSolid(s[m], pat);
    assert pat[0..] == pat && !EndsWith(s[i], pat);
    assert ours[m - i] == s[m] && ours[0] == s[i];
    if Solid(lines) == Solid(ours) {
      SameUpTo(lines, ours, m - i, 0);
    }
  }

  /** Lines between, by their places in the stream. */
  lemma BetweenAt(f: Format, s: seq<string>, pat: string, p: nat, e: nat, k: nat)
    requires p < e <= |s| && (e < |s| ==> EndsWith(s[e], f.divider)) && 0 < k < e - p
    ensures LinesBetween(f, s, pat, p, e)[k] == s[p + k]
    ensures |LinesBetween(f, s, pat, p, e)| == e - p + 1
  {
  }

  /** Between the outer dividers there is no other than the inner one and line m. */
  ghost predicate DividersAt(f: Format, s: seq<string>, p: nat, a: nat, m: nat, e: nat) {
    && p < a < m < e <= |s| && EndsWith(s[p], f.divider) && EndsWith(s[a], f.divider)
    && (e < |s| ==> EndsWith(s[e], f.divider))
    && forall j | p < j < e && EndsWith(s[j], f.divider) :: j == a || j == m
  }

  /** If the lines read were those of the section, the dividers above the header and above
      line m would return further down. */
  lemma DividersReturn(f: Format, s: seq<string>, i: nat, m: nat, end: nat, p: nat, a: nat, e: nat)
    requires DividersAt(f, s, p, a, m, e) && 3 <= i <= a && m < end <= |s| && TrimRight(s[m]) != ""
    requires Solid(LinesBetween(f, s, f.divider, p, e)) == Solid(s[i - 3..end])
    ensures m - (i - 3) <= e - p && s[p + 2] == s[i - 1] && s[p + (a - (i - 3))] == s[a]
  {
    var lines, ours := LinesBetween(f, s, f.divider, p, e), s[i - 3..end];
    var n, k := m - (i - 3), a - (i - 3);
    assert ours[n] == s[m] && ours[2] == s[i - 1] && ours[k] == s[a];
    SameUpTo(lines, ours, n, 2);
    SameUpTo(lines, ours, n, k);
    BetweenAt(f, s, f.divider, p, e, 2);
    BetweenAt(f, s, f.divider, p, e, k);
  }

  lemma OtherFrameRead(f: Format, s: seq<string>, pat: string, i: nat, m: nat, end: nat, p: nat, a: nat, e: nat)
    requires Usable(f) && FoundInside(f, s, pat, i, m, end) && Framed(f, s, i)
    requires i - 1 < a && DividersAt(f, s, p, a, m, e)
    ensures Solid(LinesBetween(f, s, f.divider, p, e)) != Solid(s[i - 3..end])
  {
    EndsSolid(s[m], pat);
    if Solid(LinesBetween(f, s, f.divider, p, e)) == Solid(s[i - 3..end]) {
      DividersReturn(f, s, i, m, end, p, a, e);
      DividersStay(f, s, pat, i, m, p, a, e);
    }
  }

  /** They return only at the frame itself: line m is the first with its ending. */
  lemma DividersStay(f: Format, s: seq<string>, pat: string, i: nat, m: nat, p: nat, a: nat, e: nat)
    requires DividersAt(f, s, p, a, m, e) && 3 <= i <= a + 1 && m - (i - 3) <= e - p
    requires EndsWith(s[m], pat) && NoneIn(s, pat, 0, m) && EndsWith(s[i - 1], f.divider)
    requires s[p + 2] == s[i - 1] && s[p + (a - (i - 3))] == s[a]
    ensures p == i - 3 && a == i - 1
  {
    var k := a - (i - 3);
    assert p + 2 == a || p + 2 == m;
    assert p + k == a || p + k == m;
    assert EndsWith(s[a], pat) <==> EndsWith(s[p + k], pat);
  }

  /** The dividers above line m are those of the header's own frame. */
  ghost predicate FrameAbove(f: Format, s: seq<string>, i: nat, m: nat)
    requires i < m < |s|
  {
    Framed(f, s, i) && !EndsWith(s[i - 2], f.divider) && NoneIn(s, f.divider, i, m)
  }

  lemma InsideFramed(f: Format, s: seq<string>, pat: string, i: nat, m: nat, end: nat)
    requires Usable(f) && FoundInside(f, s, pat, i, m, end) && Framed(f, s, i) && !FrameAbove(f, s, i, m)
    ensures Solid(ReadLines(f, s, pat, m)) != Solid(s[i - 3..end])
  {
    var e, a := FirstEnding(s, f.divider, m + 1), LastEnding(s, f.divider, m);
    FrameFound(f, s, i);
    assert EndsWith(s[i - 1], f.divider) && EndsWith(s[i - 3], f.divider);
    var p := LastEnding(s, f.divider, a);
    assert ReadLines(f, s, pat, m) == LinesBetween(f, s, f.divider, p, e);
    if a > i - 1 {
      assert DividersAt(f, s, p, a, m, e);
      OtherFrameRead(f, s, pat, i, m, end, p, a, e);
    } else {
      TitleRead(f, s, pat, i, m, end, e);
    }
  }

  lemma TitleRead(f: Format, s: seq<string>, pat: string, i: nat, m: nat, end: nat, e: nat)
    requires Usable(f) && FoundInside(f, s, pat, i, m, end) && Framed(f, s, i)
    requires m < e <= |s| && (e < |s| ==> EndsWith(s[e], f.divider))
    ensures Solid(LinesBetween(f, s, f.divider, i - 2, e)) != Solid(s[i - 3..end])
  {
    var lines, ours := LinesBetween(f, s, f.divider, i - 2, e), s[i - 3..end];
    EndsSolid(s[m], pat);
    assert ours[m - (i - 3)] == s[m] && ours[1] == s[i - 2];
    if Solid(lines) == Solid(ours) {
      SameUpTo(lines, ours, m - (i - 3), 1);
      BetweenAt(f, s, f.divider, i - 2, e, 1);
    }
  }

  lemma InsideOwnFrame(f: Format, s: seq<string>, pat: string, i: nat, m: nat, end: nat)
    requires Usable(f) && FoundInside(f, s, pat, i, m, end) && FrameAbove(f, s, i, m)
    ensures ReadAt(f, s, pat, m) == Some(Trim(Bundle(s[i - 3..end]))) <==> EndAlike(f, s, m, end)
  {
    var e := FirstEnding(s, f.divider, m + 1);
    var ours, theirs := Bundle(s[i - 3..end]), TextBetween(f, s, f.divider, i - 3, e);
    FrameFound(f, s, i);
    assert EndsWith(s[i - 1], f.divider);
    assert LastEnding(s, f.divider, m) == i - 1;
    assert ReadAt(f, s, pat, m) == Kept(theirs);
    BundleHead(s, i - 3, e);
    EndAlikeIff(f, s, m, end);
    SameCutIff(f, s, i - 3, e, end, ours, theirs);
    KeptIs(theirs, ours);
  }

  lemma InsideIff(f: Format, s: seq<string>, pat: string, i: nat, m: nat, end: nat)
    requires Usable(f) && FoundInside(f, s, pat, i, m, end)
    ensures ReadAt(f, s, pat, m) == Some(Trim(Bundle(s[FrameStart(f, s, i)..end]))) <==> FrameAround(f, s, i, m, end)
  {
    if FrameAbove(f, s, i, m) {
      InsideOwnFrame(f, s, pat, i, m, end);
    } else {
      ReadAlikeIff(f, s, pat, m, FrameStart(f, s, i), end);
      if Framed(f, s, i) {
        InsideFramed(f, s, pat, i, m, end);
      } else {
        InsideUnframed(f, s, pat, i, m, end);
      }
    }
  }

  // ----- The promise ----------------------------------------------------------

  /** When the section x of header i is stored alike, told on the lines.  The parser reads
      at the first line m that ends with the marker of the key.
      - There is none: it stores nothing.
      - It is the header's own line: the cuts must fall alike there.
      - It stands below the header, inside the section: the dividers above it must be those
        of the header's own frame, and below it the section must end alike.
      - It stands anywhere else: the lines read there must be those of the section, but for
        blank lines at the end and blanks that end the last line. */
  ghost predicate Alike(f: Format, s: seq<string>, i: nat, x: Slice)
    requires i < |s| && x.start <= x.end <= |s|
  {
    var pat := f.marker + x.key;
    var m := FirstEnding(s, pat, 0);
    if m == |s| then false
    else if m == i then CutAlike(f, s, i, x.end)
    else if i < m < x.end then FrameAround(f, s, i, m, x.end)
    else Solid(ReadLines(f, s, pat, m)) == Solid(s[x.start..x.end])
  }

  lemma MarkerKeyOneLine(f: Format, line: string)
    requires f.IsMarkerLine(line) && OneLine(line)
    ensures OneLine(f.MarkerKey(line))
  {
    TrimOneLine(line[|f.marker|..]);
  }

  lemma UsableDistinct(f: Format)
    requires Usable(f)
    ensures Distinct(f)
  {
    forall line | f.IsMarkerLine(line) ensures !f.IsDivider(line) {
      assert line[0] == f.marker[0];
    }
  }

  /** Where the section of header j ends. */
  lemma SliceCloses(f: Format, s: seq<string>, j: nat)
    requires Usable(f) && Orderly(f, s) && j < |Headers(f, s)|
    ensures j < |Slices(f, s)|
    ensures Closes(f, s, Headers(f, s)[j], Slices(f, s)[j].end)
  {
    UsableDistinct(f);
    HeadersExact(f, s);
    SliceInOrder(f, s, j);
    var h := Headers(f, s);
    if j + 1 < |h| {
      InOrderIff(f, s, j);
      NextFrameCloses(f, s, h[j], h[j + 1]);
    }
  }

  lemma NextFrameCloses(f: Format, s: seq<string>, i: nat, k: nat)
    requires Distinct(f) && i < k < |s| && f.IsMarkerLine(s[i]) && f.IsMarkerLine(s[k])
    requires FrameStart(f, s, i) < FrameStart(f, s, k)
    ensures Closes(f, s, i, FrameStart(f, s, k))
  {
    if Framed(f, s, k) {
      assert i != k - 1 && i != k - 3;
    }
  }

  lemma SliceOfHeader(f: Format, s: seq<string>, j: nat)
    requires Usable(f) && Orderly(f, s) && j < |Headers(f, s)|
    ensures j < |Slices(f, s)|
    ensures var x, i := Slices(f, s)[j], Headers(f, s)[j];
            f.IsMarkerLine(s[i]) && x.key == f.MarkerKey(s[i]) != "" && x.start == FrameStart(f, s, i) < x.end
  {
    UsableDistinct(f);
    SliceInOrder(f, s, j);
    SliceAt(f, s, Headers(f, s), j);
  }


  lemma PatternOfKey(f: Format, line: string)
    requires Usable(f) && f.IsMarkerLine(line) && OneLine(line) && f.MarkerKey(line) != ""
    ensures var pat := f.marker + f.MarkerKey(line); OneLine(pat) && Visible(pat) && TrimRight(pat) == pat
  {
    var pat := f.marker + f.MarkerKey(line);
    var cut := TrimSplitAt(line[|f.marker|..]);
    MarkerKeyOneLine(f, line);
    assert pat[|pat| - 1] == f.MarkerKey(line)[|f.MarkerKey(line)| - 1];
  }

  lemma AlikeAt(f: Format, s: seq<string>, i: nat, x: Slice, pat: string, m: nat)
    requires Usable(f) && Lined(s) && i < |s| && f.IsMarkerLine(s[i]) && Closes(f, s, i, x.end)
    requires x.start == FrameStart(f, s, i) < x.end && x.key == f.MarkerKey(s[i]) != ""
    requires pat == f.marker + x.key && m == FirstEnding(s, pat, 0) < |s|
    ensures ReadAt(f, s, pat, m) == Some(Trim(Bundle(s[x.start..x.end]))) <==> Alike(f, s, i, x)
  {
    PatternOfKey(f, s[i]);
    if m == i {
      FoundIff(f, s, i);
      FoundStoredAlikeIff(f, s, i, x.end);
    } else if i < m < x.end {
      InsideIff(f, s, pat, i, m, x.end);
    } else {
      ReadAlikeIff(f, s, pat, m, x.start, x.end);
    }
  }

  /** For any header with a key, and the section the assembler cuts for it. */
  lemma StoredAlikeIff(f: Format, s: seq<string>, i: nat, x: Slice)
    requires Usable(f) && Lined(s) && i < |s| && f.IsMarkerLine(s[i]) && Closes(f, s, i, x.end)
    requires x.start == FrameStart(f, s, i) < x.end && x.key == f.MarkerKey(s[i]) != ""
    ensures ExtractKey(f, Bundle(s), x.key) == Some(Progressive(s, x)) <==> Alike(f, s, i, x)
  {
    var pat := f.marker + x.key;
    var m := FirstEnding(s, pat, 0);
    MarkerKeyOneLine(f, s[i]);
    ParserOnLines(f, s, x.key);
    ProgressiveText(s, x);
    if m < |s| {
      AlikeAt(f, s, i, x, pat, m);
    }
  }

  /** The promise that progressive commits are identical to the slices stored at the end
      of the run, made exact for every header of every orderly stream of single lines. */
  lemma ProgressiveEqualsFinalIff(f: Format, s: seq<string>, j: nat)
    requires Usable(f) && Lined(s) && Orderly(f, s) && j < |Headers(f, s)|
    ensures j < |Slices(f, s)| && Slices(f, s)[j].start <= Slices(f, s)[j].end <= |s|
    ensures var x, i := Slices(f, s)[j], Headers(f, s)[j];
            ExtractKey(f, Bundle(s), x.key) == Some(Section(x.key, Lines(s, x)).Stored()) <==> Alike(f, s, i, x)
  {
    SliceCloses(f, s, j);
    SliceOfHeader(f, s, j);
    StoredAlikeIff(f, s, Headers(f, s)[j], Slices(f, s)[j]);
  }
}
