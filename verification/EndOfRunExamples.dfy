/** Streams of the helper's own framing for which the text stored at the end of the run
    is not the text the progressive assembler stored: one for each way in which the
    condition of EndOfRunAgreement can fail. */
module EndOfRunExamples {
  import opened Outcomes
  import opened Text
  import opened SectionAssembler
  import opened BatchSlicer
  import opened EndOfRun
  import opened SolidLines
  import opened EndOfRunCuts
  import opened EndOfRunAgreement

  /** The text stored at the end of the run for the key of header j is not the text the
      progressive assembler stored for its section. */
  ghost predicate StoredDifferently(f: Format, s: seq<string>, j: nat) {
    && Orderly(f, s) && j < |Slices(f, s)|
    && var x := Slices(f, s)[j];
       ExtractKey(f, Bundle(s), x.key) != Some(Section(x.key, Lines(s, x)).Stored())
  }

  /** A line that is neither a divider nor a header that takes part, nor ends like one. */
  predicate Filler(f: Format, header: string, line: string) {
    && OneLine(line) && !EndsWith(line, f.divider) && !EndsWith(line, header)
    && (f.IsMarkerLine(line) ==> !f.accepts(f.MarkerKey(line)))
  }

  /** A header that takes part, spelt as the parser looks for it. */
  predicate Plain(f: Format, header: string) {
    && OneLine(header) && f.marker <= header && header == f.marker + f.MarkerKey(header)
    && f.MarkerKey(header) != "" && f.accepts(f.MarkerKey(header)) && !EndsWith(header, f.divider)
  }

  lemma DividerLine(f: Format, header: string)
    requires Usable(f) && f.marker <= header
    ensures OneLine(f.divider) && !f.IsMarkerLine(f.divider) && !EndsWith(f.divider, header)
    ensures EndsWith(f.divider, f.divider)
  {
    assert f.divider[0..] == f.divider;
    if EndsWith(f.divider, header) {
      SuffixHead(f.divider, header, f.divider);
    }
    assert f.divider[0] in f.divider;
  }

  // ----- The headers of a short stream ----------------------------------------

  lemma OnlyMember(h: seq<nat>, x: nat)
    requires x in h && (forall i | i in h :: i == x) && (forall j, k | 0 <= j < k < |h| :: h[j] < h[k])
    ensures h == [x]
  {
    forall k | 0 <= k < |h| ensures h[k] == x && k == 0 {
      assert h[k] in h && h[0] in h;
    }
    assert h[|h| - 1] == x;
  }

  lemma OnlyMembers(h: seq<nat>, x: nat, y: nat)
    requires x < y && x in h && y in h && (forall i | i in h :: i == x || i == y)
    requires forall j, k | 0 <= j < k < |h| :: h[j] < h[k]
    ensures h == [x, y]
  {
    var p :| 0 <= p < |h| && h[p] == x;
    assert h[0] in h;
    assert h[0] == x;
    var rest := h[1..];
    forall i | i in rest ensures i in h && i == y {
      var q :| 0 <= q < |rest| && rest[q] == i;
      assert h[q + 1] == i;
    }
    assert h == [x] + rest;
    OnlyMember(rest, y);
  }

  lemma OneHeader(f: Format, s: seq<string>, i: nat)
    requires IsHeader(f, s, i) && f.MarkerKey(s[i]) != ""
    requires forall k: nat | k < |s| && k != i :: !IsHeader(f, s, k)
    ensures Headers(f, s) == [i] && Orderly(f, s) && Slices(f, s) == [Final(f, s, i)]
  {
    HeadersExact(f, s);
    OnlyMember(Headers(f, s), i);
    SliceAt(f, s, [i], 0);
  }

  lemma TwoHeaders(f: Format, s: seq<string>, i: nat, k: nat)
    requires i < k && IsHeader(f, s, i) && IsHeader(f, s, k)
    requires f.MarkerKey(s[i]) != "" && f.MarkerKey(s[k]) != ""
    requires forall n: nat | n < |s| && n != i && n != k :: !IsHeader(f, s, n)
    requires k != i + 2 || Framed(f, s, i)
    ensures Headers(f, s) == [i, k] && Orderly(f, s)
    ensures |Slices(f, s)| == 2
    ensures Slices(f, s)[0] == Between(f, s, i, k) && Slices(f, s)[1] == Final(f, s, k)
  {
    HeadersExact(f, s);
    OnlyMembers(Headers(f, s), i, k);
    TwoSlices(f, s, [i, k]);
  }

  lemma TwoSlices(f: Format, s: seq<string>, h: seq<nat>)
    requires InStream(f, s, h) && |h| == 2
    ensures |SlicesOf(f, s, h)| == 2
    ensures SlicesOf(f, s, h)[0] == Between(f, s, h[0], h[1]) && SlicesOf(f, s, h)[1] == Final(f, s, h[1])
  {
    SliceAt(f, s, h, 0);
    SliceAt(f, s, h, 1);
  }

  // ----- Above: a header without a frame, below a divider ---------------------

  /** The parser starts at the divider, the assembler at the header. */
  lemma UnframedDiffers(f: Format, header: string, x: string, body: string)
    requires Usable(f) && Plain(f, header) && Filler(f, header, x) && Filler(f, header, body)
    ensures StoredDifferently(f, [f.divider, x, header, body], 0)
  {
    var s := [f.divider, x, header, body];
    DividerLine(f, header);
    OneHeader(f, s, 2);
    FoundIff(f, s, 2);
    ProgressiveEqualsFinalIff(f, s, 0);
  }

  /** A title that ends with a divider: the parser takes it for the top of the frame. */
  lemma TitleDiffers(f: Format, header: string, title: string)
    requires Usable(f) && Plain(f, header) && OneLine(title) && !f.IsMarkerLine(title)
    requires EndsWith(title, f.divider) && title != f.divider && !EndsWith(title, header)
    ensures StoredDifferently(f, [f.divider, title, f.divider, header], 0)
  {
    var s := [f.divider, title, f.divider, header];
    DividerLine(f, header);
    OneHeader(f, s, 3);
    FoundIff(f, s, 3);
    ProgressiveEqualsFinalIff(f, s, 0);
  }

  // ----- Below: the frame of a key that takes no part -------------------------

  /** The parser ends at that frame, the assembler goes on. */
  lemma OtherFrameDiffers(f: Format, header: string, title: string, body: string, next: string, other: string)
    requires Usable(f) && Plain(f, header) && title != "" && Filler(f, header, title) && Filler(f, header, body)
    requires Filler(f, header, next) && Filler(f, header, other)
    ensures StoredDifferently(f, [f.divider, title, f.divider, header, body, f.divider, next, f.divider, other], 0)
  {
    var s := [f.divider, title, f.divider, header, body, f.divider, next, f.divider, other];
    DividerLine(f, header);
    OneHeader(f, s, 3);
    assert EndsWith(s[5], f.divider);
    FoundIff(f, s, 3);
    ProgressiveEqualsFinalIff(f, s, 0);
  }

  // ----- Elsewhere: a header that is not found at its own line ----------------

  /** Blanks behind the key: the parser finds no header at all. */
  lemma BlankDiffers(f: Format, header: string, blank: string, body: string)
    requires Usable(f) && Plain(f, header) && Filler(f, header, body)
    requires OneLine(blank) && f.IsMarkerLine(blank) && f.MarkerKey(blank) == f.MarkerKey(header)
    requires !EndsWith(blank, header)
    ensures StoredDifferently(f, [blank, body], 0)
    ensures ExtractKey(f, Bundle([blank, body]), f.MarkerKey(header)) == None
  {
    var s := [blank, body];
    OneHeader(f, s, 0);
    assert FirstEnding(s, header, 0) == 2;
    ProgressiveEqualsFinalIff(f, s, 0);
    MarkerKeyOneLine(f, blank);
    ParserOnLines(f, s, f.MarkerKey(header));
  }

  /** Two sections of one key, the first found and cut alike: the second agrees exactly
      when it repeats the lines of the first, but for blanks at the end. */
  lemma RepeatedKeyIff(f: Format, s: seq<string>, h: seq<nat>, x: seq<Slice>, j: nat, k: nat)
    requires Usable(f) && Lined(s) && Orderly(f, s) && h == Headers(f, s) && x == Slices(f, s)
    requires j < |h| == |x| && k < |h| && x[j].end <= |s|
    requires Sought(f, s, h[j]) && CutAlike(f, s, h[j], x[j].end)
    requires f.MarkerKey(s[h[j]]) == f.MarkerKey(s[h[k]])
    ensures StoredDifferently(f, s, k) <==> Solid(Lines(s, x[k])) != Solid(Lines(s, x[j]))
  {
    SliceOfHeader(f, s, j);
    SliceOfHeader(f, s, k);
    SliceCloses(f, s, k);
    FoundIff(f, s, h[j]);
    ProgressiveEqualsFinalIff(f, s, j);
    SlicesSameIff(f, s, x[j], x[k]);
  }

  lemma SlicesSameIff(f: Format, s: seq<string>, x: Slice, y: Slice)
    requires Lined(s) && x.start < x.end <= |s| && y.start < y.end <= |s|
    requires Visible(s[x.start]) && Visible(s[y.start])
    ensures Progressive(s, x) == Progressive(s, y) <==> Solid(Lines(s, x)) == Solid(Lines(s, y))
  {
    ProgressiveText(s, x);
    ProgressiveText(s, y);
    SameTextIff(s[x.start..x.end], s[y.start..y.end]);
  }

  /** Two framed sections of one key with different titles. */
  predicate TwoFrames(f: Format, header: string, s: seq<string>) {
    && |s| == 9 && s[3] == header && s[8] == header
    && s[0] == f.divider && s[2] == f.divider && s[5] == f.divider && s[7] == f.divider
    && Filler(f, header, s[1]) && Filler(f, header, s[4]) && Filler(f, header, s[6])
    && s[1] != "" && s[6] != "" && s[1] != s[6]
  }

  lemma TwoFramesHeaders(f: Format, header: string, s: seq<string>)
    requires Usable(f) && Plain(f, header) && TwoFrames(f, header, s)
    ensures Lined(s) && Headers(f, s) == [3, 8] && Orderly(f, s) && |Slices(f, s)| == 2
    ensures Slices(f, s)[0] == Slice(f.MarkerKey(header), 0, 5, 9)
    ensures Slices(f, s)[1] == Slice(f.MarkerKey(header), 5, 9, 9)
  {
    DividerLine(f, header);
    TwoHeaders(f, s, 3, 8);
    assert FrameStart(f, s, 3) == 0 && FrameStart(f, s, 8) == 5;
  }

  lemma TwoFramesFirst(f: Format, header: string, s: seq<string>)
    requires Usable(f) && Plain(f, header) && TwoFrames(f, header, s)
    ensures Sought(f, s, 3) && CutAlike(f, s, 3, 5)
  {
    DividerLine(f, header);
  }

  lemma TitleKept(f: Format, header: string, lines: seq<string>)
    requires Usable(f) && Plain(f, header) && |lines| > 3 && lines[3] == header
    ensures |Solid(lines)| > 3 && Solid(lines)[1] == lines[1]
  {
    VisibleSolid(header);
    SolidMeaning(lines);
  }

  /** The parser stores the first of two sections, the assembler both. */
  lemma RepeatedDiffers(f: Format, header: string, s: seq<string>)
    requires Usable(f) && Plain(f, header) && TwoFrames(f, header, s)
    ensures StoredDifferently(f, s, 1)
  {
    TwoFramesHeaders(f, header, s);
    TwoFramesFirst(f, header, s);
    TitleKept(f, header, s[0..5]);
    TitleKept(f, header, s[5..9]);
    var x := Slices(f, s);
    assert Solid(Lines(s, x[1])) != Solid(Lines(s, x[0]));
    RepeatedKeyIff(f, s, [3, 8], x, 0, 1);
  }

  // ----- Below a header that is not found -------------------------------------

  /** Blanks behind the key, but a line of the section that ends with the marker: the parser
      finds that one, and the section is stored alike. */
  lemma MarkerInBody(f: Format, header: string, s: seq<string>)
    requires Usable(f) && Plain(f, header) && |s| == 5 && s[0] == f.divider && s[2] == f.divider
    requires s[1] != "" && Filler(f, header, s[1]) && f.MarkerKey(header) != ""
    requires OneLine(s[3]) && f.IsMarkerLine(s[3]) && f.MarkerKey(s[3]) == f.MarkerKey(header)
    requires !EndsWith(s[3], header) && !EndsWith(s[3], f.divider)
    requires OneLine(s[4]) && !f.IsMarkerLine(s[4]) && EndsWith(s[4], header) && !EndsWith(s[4], f.divider)
    ensures Orderly(f, s) && !Sought(f, s, 3) && !StoredDifferently(f, s, 0)
  {
    DividerLine(f, header);
    OneHeader(f, s, 3);
    FoundInBody(f, header, s);
    ProgressiveEqualsFinalIff(f, s, 0);
  }

  lemma FoundInBody(f: Format, header: string, s: seq<string>)
    requires Usable(f) && Plain(f, header) && |s| == 5 && s[0] == f.divider && s[2] == f.divider
    requires s[1] != "" && Filler(f, header, s[1])
    requires f.IsMarkerLine(s[3]) && f.MarkerKey(s[3]) == f.MarkerKey(header)
    requires !EndsWith(s[3], header) && !EndsWith(s[3], f.divider)
    requires EndsWith(s[4], header)
    ensures FirstEnding(s, header, 0) == 4 && FrameAround(f, s, 3, 4, 5) && !Sought(f, s, 3)
  {
    DividerLine(f, header);
    assert s[3] != header by { assert header[0..] == header; }
  }

  // ----- The helper's own framing ---------------------------------------------

  const DIVIDER := "========================================"
  const HEADER := "Diagnostic: boot"

  /** The helper's framing with one key that takes part. */
  function BootFormat(): Format { HelperFormat(key => key == "boot") }

  lemma BootHeader()
    ensures Usable(BootFormat()) && Plain(BootFormat(), HEADER) && BootFormat().divider == DIVIDER
  {
    HelperFormatUsable(key => key == "boot");
    assert HEADER[12..] == "boot";
  }

  lemma ShortFiller(line: string)
    requires |line| < 12 && OneLine(line)
    ensures Filler(BootFormat(), HEADER, line)
  {
  }

  lemma ReportFiller(line: string)
    requires line == "Diagnostic: report"
    ensures Filler(BootFormat(), HEADER, line)
  {
    assert line[12..] == "report";
  }

  lemma BlankHeader(line: string)
    requires line == "Diagnostic: boot "
    ensures OneLine(line) && BootFormat().IsMarkerLine(line) && BootFormat().MarkerKey(line) == "boot"
    ensures !EndsWith(line, HEADER)
  {
    assert line[12..] == "boot ";
    assert TrimRight("boot ") == TrimRight("boot ") [..4];
  }

  lemma UnframedExample()
    ensures StoredDifferently(BootFormat(), [DIVIDER, "x", HEADER, "body"], 0)
  {
    BootHeader();
    ShortFiller("x");
    ShortFiller("body");
    UnframedDiffers(BootFormat(), HEADER, "x", "body");
  }

  lemma TitleExample()
    ensures StoredDifferently(BootFormat(), [DIVIDER, "t" + DIVIDER, DIVIDER, HEADER], 0)
  {
    BootHeader();
    var title := "t" + DIVIDER;
    assert title[1..] == DIVIDER && title[0] == 't';
    DividerHoldsEquals(key => key == "boot", '\n');
    DividerHoldsEquals(key => key == "boot", 'D');
    assert title[|title| - |HEADER|] == DIVIDER[|DIVIDER| - |HEADER|];
    TitleDiffers(BootFormat(), HEADER, title);
  }

  lemma BlankExample()
    ensures StoredDifferently(BootFormat(), ["Diagnostic: boot ", "body"], 0)
    ensures ExtractKey(BootFormat(), Bundle(["Diagnostic: boot ", "body"]), "boot") == None
  {
    BootHeader();
    BlankHeader("Diagnostic: boot ");
    ShortFiller("body");
    BlankDiffers(BootFormat(), HEADER, "Diagnostic: boot ", "body");
  }

  lemma BodyLine(line: string)
    requires line == "see Diagnostic: boot"
    ensures OneLine(line) && !BootFormat().IsMarkerLine(line) && EndsWith(line, HEADER)
    ensures !EndsWith(line, BootFormat().divider)
  {
    assert line[4..] == HEADER && line[0] == 's';
  }

  lemma BlankNoDivider(line: string)
    requires |line| < 40
    ensures !EndsWith(line, BootFormat().divider)
  {
  }

  lemma MarkerInBodyExample(s: seq<string>, title: string, blank: string, body: string)
    requires title == "title" && blank == "Diagnostic: boot " && body == "see Diagnostic: boot"
    requires s == [DIVIDER, title, DIVIDER, blank, body]
    ensures !Sought(BootFormat(), s, 3) && Orderly(BootFormat(), s) && !StoredDifferently(BootFormat(), s, 0)
  {
    BootHeader();
    BlankHeader(blank);
    BodyLine(body);
    ShortFiller(title);
    BlankNoDivider(blank);
    MarkerInBody(BootFormat(), HEADER, s);
  }

  lemma RepeatedExample()
    ensures StoredDifferently(BootFormat(),
              [DIVIDER, "first", DIVIDER, HEADER, "body", DIVIDER, "second", DIVIDER, HEADER], 1)
  {
    BootHeader();
    ShortFiller("first");
    ShortFiller("body");
    ShortFiller("second");
    RepeatedDiffers(BootFormat(), HEADER,
      [DIVIDER, "first", DIVIDER, HEADER, "body", DIVIDER, "second", DIVIDER, HEADER]);
  }

  lemma OtherFrameExample()
    ensures StoredDifferently(BootFormat(),
              [DIVIDER, "title", DIVIDER, HEADER, "a", DIVIDER, "T2", DIVIDER, "Diagnostic: report"], 0)
  {
    BootHeader();
    ShortFiller("title");
    ShortFiller("a");
    ShortFiller("T2");
    ReportFiller("Diagnostic: report");
    OtherFrameDiffers(BootFormat(), HEADER, "title", "a", "T2", "Diagnostic: report");
  }
}
