/** The end-of-run parser of src/MainWindow.cpp at a header that it finds at its own line:
    when it cuts the section where the progressive assembler does. */
module EndOfRunCuts {
  import opened Outcomes
  import opened Text
  import opened SectionAssembler
  import opened EndOfRun
  import opened SolidLines

  // ----- Cutting one section at two places ------------------------------------

  /** A line at which a section can end: a divider or a header. */
  predicate Ends(f: Format, line: string) { f.IsDivider(line) || f.IsMarkerLine(line) }

  lemma EndsVisible(f: Format, line: string, rest: string)
    requires Usable(f) && Ends(f, line)
    ensures Visible(line) && Visible(line + "\n" + rest)
  {
  }

  /** The line splits at the divider that ends it. */
  lemma SplitAtDivider(f: Format, s: seq<string>, e: nat)
    requires e < |s| && EndsWith(s[e], f.divider)
    ensures s[e] == Before(f, s, e) + f.divider
    ensures Before(f, s, e) == "" <==> f.IsDivider(s[e])
  {
  }

  lemma BeforeVisible(f: Format, s: seq<string>, e: nat)
    requires Usable(f) && e < |s| && EndsWith(s[e], f.divider) && Ends(f, s[e]) && Before(f, s, e) != ""
    ensures Visible(Before(f, s, e))
  {
    SplitAtDivider(f, s, e);
    assert s[e][0] == Before(f, s, e)[0];
  }

  lemma CutEarlier(f: Format, s: seq<string>, start: nat, e: nat, end: nat)
    requires Usable(f) && start < e < end <= |s| && EndsWith(s[e], f.divider)
    ensures var more := f.divider + "\n" + Bundle(s[e + 1..end]);
            Bundle(s[start..end]) == Bundle(s[start..e]) + Before(f, s, e) + more && Visible(more)
  {
    SplitAtDivider(f, s, e);
    BundleSplit(s, start, e, end);
    BundleHead(s, e, end);
    Regroup(Bundle(s[start..e]), Before(f, s, e), f.divider, "\n", Bundle(s[e + 1..end]));
  }

  lemma Regroup(a: string, b: string, c: string, d: string, x: string)
    ensures a + ((b + c) + d + x) == a + b + (c + d + x)
  {
  }

  lemma CutLater(f: Format, s: seq<string>, start: nat, e: nat, end: nat)
    requires Usable(f) && start < end < e <= |s| && (e < |s| ==> EndsWith(s[e], f.divider)) && Ends(f, s[end])
    ensures var more := Bundle(s[end..e]) + Before(f, s, e);
            Bundle(s[start..e]) + Before(f, s, e) == Bundle(s[start..end]) + more && Visible(more)
  {
    BundleSplit(s, start, end, e);
    BundleHead(s, end, e);
    EndsVisible(f, s[end], Bundle(s[end + 1..e]));
    Associate(Bundle(s[start..end]), Bundle(s[end..e]), Before(f, s, e));
  }

  lemma Associate(a: string, b: string, c: string)
    ensures (a + b) + c == a + (b + c)
  {
  }

  /** The parser's end e, at the first divider below, against the assembler's end. */
  lemma SameCutIff(f: Format, s: seq<string>, start: nat, e: nat, end: nat, ours: string, theirs: string)
    requires Usable(f) && start < e <= |s| && start < end <= |s| && Visible(s[start])
    requires e < |s| ==> EndsWith(s[e], f.divider)
    requires end < |s| ==> Ends(f, s[end])
    requires ours == Bundle(s[start..end]) && theirs == Bundle(s[start..e]) + Before(f, s, e)
    ensures Trim(ours) != ""
    ensures Trim(theirs) == Trim(ours) <==> e == end && Before(f, s, e) == ""
  {
    BundleHead(s, start, end);
    BundleHead(s, start, e);
    TrimHead(ours);
    if e < end {
      CutEarlier(f, s, start, e, end);
      TrimGrows(theirs, f.divider + "\n" + Bundle(s[e + 1..end]));
    } else if end < e {
      CutLater(f, s, start, e, end);
      TrimGrows(ours, Bundle(s[end..e]) + Before(f, s, e));
    } else if Before(f, s, e) != "" {
      BeforeVisible(f, s, e);
      TrimGrows(ours, Before(f, s, e));
    } else {
      assert theirs == ours;
    }
  }

  // ----- The header that is found ---------------------------------------------

  /** A header spelt exactly as the parser looks for it, and the first line of the
      stream that ends so. */
  ghost predicate Sought(f: Format, s: seq<string>, i: nat)
    requires i < |s| && f.IsMarkerLine(s[i])
  {
    && s[i] == f.marker + f.MarkerKey(s[i])
    && forall j | 0 <= j < i :: !EndsWith(s[j], s[i])
  }

  /** A text that returns, moved by a blank stretch, is blank. */
  lemma {:induction false} BlankWhenMoved(marker: string, line: string, d: nat, k: nat)
    requires 0 < d && |marker| + d <= |line| && marker <= line && k < |marker|
    requires line[d..d + |marker|] == marker
    requires forall n | |marker| <= n < |marker| + d :: IsSpace(line[n])
    ensures IsSpace(marker[k])
    decreases |marker| - k
  {
    assert marker[k] == line[d..d + |marker|][k] == line[k + d];
    if k + d < |marker| {
      BlankWhenMoved(marker, line, d, k + d);
    }
  }

  lemma BlanksBetween(marker: string, w: string, line: string, d: nat)
    requires line == marker + w && d <= |w| && forall n | 0 <= n < d :: IsSpace(w[n])
    ensures forall n | |marker| <= n < |marker| + d :: IsSpace(line[n])
  {
    forall n | |marker| <= n < |marker| + d ensures IsSpace(line[n]) {
      assert line[n] == w[n - |marker|];
    }
  }

  lemma ExactSpelling(marker: string, w: string)
    requires Visible(marker) && Trim(w) != "" && EndsWith(marker + w, marker + Trim(w))
    ensures w == Trim(w)
  {
    var line, key := marker + w, Trim(w);
    var cut := TrimSplitAt(w);
    var d := |w| - |key|;
    assert line[d..] == marker + key;
    assert line[|line| - 1] == (marker + key)[|marker + key| - 1] == key[|key| - 1];
    assert line[|line| - 1] == w[|w| - 1];
    assert cut == d;
    if d > 0 {
      BlanksBetween(marker, w, line, d);
      assert line[d..d + |marker|] == line[d..][..|marker|] == marker;
      BlankWhenMoved(marker, line, d, 0);
    }
  }

  /** The parser finds a header at its own line exactly when that line is spelt as it
      looks for it and no earlier line ends so. */
  lemma FoundIff(f: Format, s: seq<string>, i: nat)
    requires Usable(f) && i < |s| && f.IsMarkerLine(s[i]) && f.MarkerKey(s[i]) != ""
    ensures FirstEnding(s, f.marker + f.MarkerKey(s[i]), 0) == i <==> Sought(f, s, i)
  {
    var pat := f.marker + f.MarkerKey(s[i]);
    var w := s[i][|f.marker|..];
    assert s[i] == f.marker + w;
    if FirstEnding(s, pat, 0) == i {
      ExactSpelling(f.marker, w);
    }
    if Sought(f, s, i) {
      assert s[i][0..] == s[i];
      assert EndsWith(s[i], pat);
    }
  }

  // ----- The promise ----------------------------------------------------------

  /** What the progressive assembler hands over for a slice. */
  function Progressive(s: seq<string>, x: Slice): string {
    Section(x.key, Lines(s, x)).Stored()
  }

  lemma ProgressiveText(s: seq<string>, x: Slice)
    requires x.start < x.end <= |s|
    ensures Progressive(s, x) == Trim(Bundle(s[x.start..x.end]))
  {
    var lines := s[x.start..x.end];
    JoinBundle(lines);
    TrimNewline(Join(lines));
  }

  /** The cuts fall alike: above, the header's own frame is the first thing the parser
      meets, or a header without a frame has no divider above it; below, the section
      ends at the first divider, or at the end of a stream without one. */
  ghost predicate CutAlike(f: Format, s: seq<string>, i: nat, end: nat)
    requires i < |s| && end <= |s|
  {
    && (if Framed(f, s, i) then !EndsWith(s[i - 2], f.divider) else NoneIn(s, f.divider, 0, i))
    && EndAlike(f, s, i, end)
  }

  ghost predicate NoneIn(s: seq<string>, pat: string, from: nat, to: nat)
    requires to <= |s|
  {
    forall j | from <= j < to :: !EndsWith(s[j], pat)
  }

  /** Where the section of header i can end: at the end of the stream, or behind the
      header at a divider or the next header, or, when the next frame takes the header
      for its title, at the divider above the header. */
  predicate Closes(f: Format, s: seq<string>, i: nat, end: nat)
    requires i < |s|
  {
    && end <= |s| && (end < |s| ==> Ends(f, s[end]))
    && (i < end || (Framed(f, s, i) && end == i - 1))
  }

  ghost predicate EndAlike(f: Format, s: seq<string>, i: nat, end: nat)
    requires i < |s| && end <= |s|
  {
    i < end && NoneIn(s, f.divider, i + 1, end) && (end < |s| ==> f.IsDivider(s[end]))
  }

  lemma EndAlikeIff(f: Format, s: seq<string>, i: nat, end: nat)
    requires i < |s| && end <= |s|
    ensures var e := FirstEnding(s, f.divider, i + 1);
            e == end && Before(f, s, e) == "" <==> EndAlike(f, s, i, end)
  {
    var e := FirstEnding(s, f.divider, i + 1);
    if e < |s| {
      SplitAtDivider(f, s, e);
    }
    if end < |s| && f.IsDivider(s[end]) {
      assert s[end][0..] == s[end];
    }
  }

  /** A text kept is one that trims to it. */
  lemma KeptIs(text: string, ours: string)
    requires Trim(ours) != ""
    ensures Kept(text) == Some(Trim(ours)) <==> Trim(text) == Trim(ours)
  {
  }

  /** A header without a frame, and no divider above it: the parser starts at it, as
      the assembler does. */
  lemma UnframedAlone(f: Format, s: seq<string>, i: nat, end: nat)
    requires Usable(f) && i < end <= |s| && f.IsMarkerLine(s[i]) && NoneIn(s, f.divider, 0, i)
    requires end < |s| ==> Ends(f, s[end])
    ensures ReadAt(f, s, s[i], i) == Some(Trim(Bundle(s[i..end]))) <==> EndAlike(f, s, i, end)
  {
    var e := FirstEnding(s, f.divider, i + 1);
    var ours, theirs := Bundle(s[i..end]), TextBetween(f, s, s[i], i, e);
    BundleHead(s, i, e);
    EndAlikeIff(f, s, i, end);
    SameCutIff(f, s, i, e, end, ours, theirs);
    KeptIs(theirs, ours);
  }

  lemma StartsDifferently(text: string, ours: string)
    requires Visible(text) && Visible(ours) && text[0] != ours[0]
    ensures Kept(text) != Some(Trim(ours))
  {
    TrimHead(text);
    TrimHead(ours);
  }

  lemma BetweenVisible(f: Format, s: seq<string>, i: nat, e: nat)
    requires Usable(f) && i < e <= |s| && (e < |s| ==> EndsWith(s[e], f.divider))
    ensures var text := TextBetween(f, s, f.divider, i, e); Visible(text) && text[0] == f.divider[0]
  {
  }

  lemma OtherStart(f: Format, s: seq<string>, i: nat, e: nat, ours: string)
    requires Usable(f) && i < e <= |s| && (e < |s| ==> EndsWith(s[e], f.divider))
    requires Visible(ours) && f.marker[0] == ours[0]
    ensures Kept(TextBetween(f, s, f.divider, i, e)) != Some(Trim(ours))
  {
    BetweenVisible(f, s, i, e);
    StartsDifferently(TextBetween(f, s, f.divider, i, e), ours);
  }

  lemma OtherStartWrapped(f: Format, s: seq<string>, e: nat, ours: string)
    requires Usable(f) && e <= |s| && s != [] && EndsWith(s[0], f.divider) && (e < |s| ==> EndsWith(s[e], f.divider))
    requires Visible(ours) && f.marker[0] == ours[0]
    ensures ReadWrapped(f, s, e) != Some(Trim(ours))
  {
    var last := LastEnding(s, f.divider, |s|);
    if last != e {
      OtherStart(f, s, last, if last < e then e else |s|, ours);
    }
  }

  lemma BelowFirstLine(f: Format, s: seq<string>, marker: string, m: nat, ours: string)
    requires Usable(f) && m < |s| && LastEnding(s, f.divider, m) == 0 && f.IsDivider(s[0])
    requires Visible(ours) && f.marker[0] == ours[0]
    ensures ReadAt(f, s, marker, m) != Some(Trim(ours))
  {
    OtherStartWrapped(f, s, FirstEnding(s, f.divider, m + 1), ours);
  }

  lemma BelowOtherLine(f: Format, s: seq<string>, marker: string, m: nat, ours: string)
    requires Usable(f) && m < |s| && LastEnding(s, f.divider, m) >= 0
    requires !(LastEnding(s, f.divider, m) == 0 && f.IsDivider(s[0]))
    requires Visible(ours) && f.marker[0] == ours[0]
    ensures ReadAt(f, s, marker, m) != Some(Trim(ours))
  {
    var above := LastEnding(s, f.divider, m);
    var prior := LastEnding(s, f.divider, above);
    OtherStart(f, s, if prior >= 0 then prior else above, FirstEnding(s, f.divider, m + 1), ours);
  }

  /** A header without a frame, and a divider somewhere above it: the parser starts at a
      divider, the assembler at the header. */
  lemma UnframedBelowDivider(f: Format, s: seq<string>, i: nat, end: nat)
    requires Usable(f) && i < end <= |s| && f.IsMarkerLine(s[i]) && !NoneIn(s, f.divider, 0, i)
    ensures ReadAt(f, s, s[i], i) != Some(Trim(Bundle(s[i..end])))
  {
    var marker, above, ours := s[i], LastEnding(s, f.divider, i), Bundle(s[i..end]);
    BundleHead(s, i, end);
    if above == 0 && f.IsDivider(s[0]) {
      BelowFirstLine(f, s, marker, i, ours);
    } else {
      BelowOtherLine(f, s, marker, i, ours);
    }
  }

  lemma FrameFound(f: Format, s: seq<string>, i: nat)
    requires Usable(f) && i < |s| && Framed(f, s, i)
    ensures LastEnding(s, f.divider, i) == i - 1
    ensures LastEnding(s, f.divider, i - 1) == if EndsWith(s[i - 2], f.divider) then i - 2 else i - 3
  {
    assert f.divider[0..] == f.divider;
    assert EndsWith(s[i - 1], f.divider) && EndsWith(s[i - 3], f.divider);
  }

  lemma FramedRead(f: Format, s: seq<string>, i: nat)
    requires Usable(f) && i < |s| && Framed(f, s, i)
    ensures var from := if EndsWith(s[i - 2], f.divider) then i - 2 else i - 3;
            ReadAt(f, s, s[i], i) == Kept(TextBetween(f, s, f.divider, from, FirstEnding(s, f.divider, i + 1)))
  {
    FrameFound(f, s, i);
  }

  /** A framed header whose title does not end with a divider. */
  lemma FramedPlain(f: Format, s: seq<string>, i: nat, end: nat)
    requires Usable(f) && i < |s| && Framed(f, s, i) && !EndsWith(s[i - 2], f.divider) && Closes(f, s, i, end)
    ensures ReadAt(f, s, s[i], i) == Some(Trim(Bundle(s[i - 3..end]))) <==> EndAlike(f, s, i, end)
  {
    var e := FirstEnding(s, f.divider, i + 1);
    var ours, theirs := Bundle(s[i - 3..end]), TextBetween(f, s, f.divider, i - 3, e);
    FramedRead(f, s, i);
    BundleHead(s, i - 3, e);
    EndAlikeIff(f, s, i, end);
    SameCutIff(f, s, i - 3, e, end, ours, theirs);
    KeptIs(theirs, ours);
  }

  lemma SecondLineDiffers(divider: string, title: string, x: string, y: string)
    requires OneLine(title) && EndsWith(title, divider) && title != divider && Visible(divider) && Visible(x)
    ensures Trim(divider + "\n" + divider + "\n" + x) != Trim(divider + "\n" + title + "\n" + y)
  {
    var one, two := divider + "\n" + divider + "\n", divider + "\n" + title + "\n" + y;
    var k := 2 * |divider| + 1;
    VisibleTrim(one, x);
    TrimVisiblePrefix(two);
    assert one[k] == '\n';
    assert two[k] == title[|divider|];
  }

  /** A framed header whose title ends with a divider: the parser takes the title for
      the top of the frame. */
  lemma FramedByTitle(f: Format, s: seq<string>, i: nat, end: nat)
    requires Usable(f) && i < |s| && Framed(f, s, i) && f.IsMarkerLine(s[i]) && i - 1 <= end <= |s|
    requires OneLine(s[i - 2]) && EndsWith(s[i - 2], f.divider)
    ensures ReadAt(f, s, s[i], i) != Some(Trim(Bundle(s[i - 3..end])))
  {
    var e := FirstEnding(s, f.divider, i + 1);
    FramedRead(f, s, i);
    ReadFromTitle(f, s, i, e);
    FramedText(f, s, i, end);
    var x, y := s[i] + "\n" + Bundle(s[i + 1..e]) + Before(f, s, e), Bundle(s[i - 1..end]);
    SecondLineDiffers(f.divider, s[i - 2], x, y);
  }

  lemma ReadFromTitle(f: Format, s: seq<string>, i: nat, e: nat)
    requires i < e <= |s| && Framed(f, s, i) && (e < |s| ==> EndsWith(s[e], f.divider))
    ensures TextBetween(f, s, f.divider, i - 2, e)
            == f.divider + "\n" + f.divider + "\n" + (s[i] + "\n" + Bundle(s[i + 1..e]) + Before(f, s, e))
  {
    BundleHead(s, i - 1, e);
    BundleHead(s, i, e);
    Gather(f.divider + "\n", s[i] + "\n", Bundle(s[i + 1..e]), Before(f, s, e));
  }

  lemma Gather(u: string, x: string, y: string, z: string)
    ensures u + (u + (x + y)) + z == u + u + (x + y + z)
  {
  }

  lemma FramedText(f: Format, s: seq<string>, i: nat, end: nat)
    requires i < |s| && Framed(f, s, i) && i - 1 <= end <= |s|
    ensures Bundle(s[i - 3..end]) == f.divider + "\n" + s[i - 2] + "\n" + Bundle(s[i - 1..end])
  {
    BundleHead(s, i - 3, end);
    BundleHead(s, i - 2, end);
  }

  /** A header the parser finds at its own line is stored alike by both exactly when
      the cuts fall alike. */
  lemma FoundStoredAlikeIff(f: Format, s: seq<string>, i: nat, end: nat)
    requires Usable(f) && Lined(s) && i < |s| && f.IsMarkerLine(s[i]) && Closes(f, s, i, end)
    ensures ReadAt(f, s, s[i], i) == Some(Trim(Bundle(s[FrameStart(f, s, i)..end]))) <==> CutAlike(f, s, i, end)
  {
    if Framed(f, s, i) {
      if EndsWith(s[i - 2], f.divider) {
        FramedByTitle(f, s, i, end);
      } else {
        FramedPlain(f, s, i, end);
      }
    } else if NoneIn(s, f.divider, 0, i) {
      UnframedAlone(f, s, i, end);
    } else {
      UnframedBelowDivider(f, s, i, end);
    }
  }
}
