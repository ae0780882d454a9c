/** The authoritative end-of-run parser, MainWindow's extractDiagnosticSections:
    it searches one long text for markers and dividers.  This file tells what it
    stores for a key on the lines of the text. */
module EndOfRun {
  import opened Outcomes
  import opened Text
  import opened SectionAssembler

  // ----- Searching a text -----------------------------------------------------

  predicate Occurs(text: string, p: int, pat: string) {
    0 <= p && p + |pat| <= |text| && text[p..p + |pat|] == pat
  }

  /** The first occurrence at or after from, or -1. */
  function IndexOf(text: string, pat: string, from: nat): int
    decreases |text| - from
  {
    if from + |pat| > |text| then -1
    else if Occurs(text, from, pat) then from
    else IndexOf(text, pat, from + 1)
  }

  lemma {:induction false} IndexOfFirst(text: string, pat: string, from: nat)
    ensures var p := IndexOf(text, pat, from);
            && (p == -1 || (from <= p && Occurs(text, p, pat)))
            && forall q | from <= q && Occurs(text, q, pat) :: 0 <= p <= q
    decreases |text| - from
  {
    if from + |pat| <= |text| && !Occurs(text, from, pat) {
      IndexOfFirst(text, pat, from + 1);
    }
  }

  /** The last occurrence at or before from, or -1; a negative from counts from the
      end of the text. */
  function LastIndexOf(text: string, pat: string, from: int): int {
    LastAtOrBefore(text, pat, if from < 0 then from + |text| else from)
  }

  function LastAtOrBefore(text: string, pat: string, from: int): int
    decreases from
  {
    if from < 0 then -1
    else if Occurs(text, from, pat) then from
    else LastAtOrBefore(text, pat, from - 1)
  }

  lemma {:induction false} LastAtOrBeforeLast(text: string, pat: string, from: int)
    ensures var p := LastAtOrBefore(text, pat, from);
            && (p == -1 || (0 <= p <= from && Occurs(text, p, pat)))
            && forall q | q <= from && Occurs(text, q, pat) :: q <= p
    decreases from
  {
    if from >= 0 && !Occurs(text, from, pat) {
      LastAtOrBeforeLast(text, pat, from - 1);
    }
  }

  // ----- The parser -----------------------------------------------------------

  /** The section stored for one key of a captured text, if any. */
  function ExtractKey(f: Format, bundle: string, key: string): Option<string> {
    Extract(bundle, f.divider + "\n", f.marker + key + "\n")
  }

  function Extract(bundle: string, divider: string, marker: string): Option<string> {
    ExtractAt(bundle, divider, IndexOf(bundle, marker, 0), |marker|)
  }

  function ExtractAt(bundle: string, divider: string, markerPos: int, length: nat): Option<string> {
    if markerPos < 0 then None
    else
      var next := IndexOf(bundle, divider, markerPos + length);
      Cut(bundle, SectionStart(bundle, divider, markerPos, LastIndexOf(bundle, divider, markerPos)), next)
  }

  function SectionStart(bundle: string, divider: string, markerPos: int, above: int): int {
    if above < 0 then markerPos
    else
      var prior := LastIndexOf(bundle, divider, above - 1);
      if prior >= 0 then prior else above
  }

  function Cut(bundle: string, sectionStart: int, next: int): Option<string> {
    var sectionEnd := if next < 0 then |bundle| else next;
    var section := Trim(Mid(bundle, sectionStart, sectionEnd - sectionStart));
    if section == "" then None else Some(section)
  }

  /** QString::mid: a negative length means the rest of the text. */
  function Mid(text: string, start: int, length: int): string {
    if start < 0 || start > |text| then ""
    else if length < 0 || start + length > |text| then text[start..]
    else text[start..start + length]
  }

  // ----- A captured text and its lines ----------------------------------------

  /** The captured text: every streamed line and a newline. */
  function Bundle(s: seq<string>): string {
    if s == [] then "" else s[0] + "\n" + Bundle(s[1..])
  }

  predicate OneLine(line: string) { '\n' !in line }

  predicate EndsWith(line: string, pat: string) {
    |pat| <= |line| && line[|line| - |pat|..] == pat
  }

  function Offset(s: seq<string>, i: nat): nat
    requires i <= |s|
  {
    if i == 0 then 0 else |s[0]| + 1 + Offset(s[1..], i - 1)
  }

  lemma {:induction false} OffsetMonotone(s: seq<string>, i: nat, j: nat)
    requires i <= j <= |s|
    ensures Offset(s, i) + (j - i) <= Offset(s, j) <= |Bundle(s)|
    ensures i < j ==> Offset(s, i) + |s[i]| + 1 <= Offset(s, j)
  {
    if i > 0 {
      OffsetMonotone(s[1..], i - 1, j - 1);
    } else if j > 0 {
      OffsetMonotone(s[1..], 0, j - 1);
    }
  }

  lemma {:induction false} BundlePrefix(s: seq<string>, j: nat)
    requires j <= |s|
    ensures Offset(s, j) == |Bundle(s[..j])|
    ensures Bundle(s) == Bundle(s[..j]) + Bundle(s[j..])
  {
    if j > 0 {
      BundlePrefix(s[1..], j - 1);
      assert s[..j][1..] == s[1..][..j - 1];
      assert s[1..][j - 1..] == s[j..];
    } else {
      assert s[0..] == s;
    }
  }

  lemma BundleSlice(s: seq<string>, i: nat, j: nat)
    requires i <= j <= |s|
    ensures Offset(s, i) <= Offset(s, j) <= |Bundle(s)|
    ensures Bundle(s)[Offset(s, i)..Offset(s, j)] == Bundle(s[i..j])
    ensures Offset(s, |s|) == |Bundle(s)|
  {
    BundlePrefix(s, |s|);
    assert s[..|s|] == s;
    BundlePrefix(s, j);
    BundlePrefix(s[..j], i);
    BundlePrefix(s, i);
    assert s[..j][..i] == s[..i] && s[..j][i..] == s[i..j];
  }

  /** A newline-terminated pattern at p is the end of line i. */
  predicate AtLineEnd(s: seq<string>, i: nat, pat: string, p: int)
    requires i < |s|
  {
    EndsWith(s[i], pat) && p == Offset(s, i) + |s[i]| - |pat|
  }

  lemma FirstLineOccurrence(head: string, rest: string, pat: string, p: int)
    requires OneLine(head) && OneLine(pat) && p <= |head|
    ensures Occurs(head + "\n" + rest, p, pat + "\n") <==> EndsWith(head, pat) && p == |head| - |pat|
  {
    var text := head + "\n" + rest;
    if Occurs(text, p, pat + "\n") {
      var found := text[p..p + |pat| + 1];
      assert found[|pat|] == '\n' == text[p + |pat|];
      assert forall k | 0 <= k < |head| :: text[k] == head[k] != '\n';
      assert forall k | 0 <= k < |pat| :: text[p + k] == found[k] == pat[k] != '\n';
      assert text[|head|] == '\n';
      assert head[p..] == found[..|pat|];
    }
    if EndsWith(head, pat) && p == |head| - |pat| {
      assert text[p..p + |pat| + 1] == head[p..] + "\n";
    }
  }

  lemma LaterOccurrence(head: string, rest: string, pat: string, p: int)
    requires p > |head|
    ensures Occurs(head + "\n" + rest, p, pat) <==> Occurs(rest, p - |head| - 1, pat)
  {
    var text, q := head + "\n" + rest, p - |head| - 1;
    if q + |pat| <= |rest| {
      assert text[p..p + |pat|] == rest[q..q + |pat|];
    }
  }

  /** A newline-terminated pattern occurs in the text exactly at the ends of lines
      that end with it. */
  lemma {:induction false} OccursAtLineEnd(s: seq<string>, pat: string, p: int)
    requires forall i | 0 <= i < |s| :: OneLine(s[i])
    requires OneLine(pat)
    ensures Occurs(Bundle(s), p, pat + "\n") <==> exists i | 0 <= i < |s| :: AtLineEnd(s, i, pat, p)
  {
    if s != [] {
      var head, rest := s[0], s[1..];
      var q := p - |head| - 1;
      assert Bundle(s) == head + "\n" + Bundle(rest);
      forall i | 1 <= i < |s| ensures AtLineEnd(s, i, pat, p) <==> AtLineEnd(rest, i - 1, pat, q) {
      }
      assert AtLineEnd(s, 0, pat, p) <==> EndsWith(head, pat) && p == |head| - |pat|;
      OccursAtLineEnd(rest, pat, q);
      if exists i | 0 <= i < |rest| :: AtLineEnd(rest, i, pat, q) {
        var i :| 0 <= i < |rest| && AtLineEnd(rest, i, pat, q);
        assert AtLineEnd(s, i + 1, pat, p);
      }
      if p > |head| {
        LaterOccurrence(head, Bundle(rest), pat + "\n", p);
      } else {
        FirstLineOccurrence(head, Bundle(rest), pat, p);
        assert forall i | 1 <= i < |s| :: !AtLineEnd(s, i, pat, p);
      }
    }
  }

  // ----- Searching the lines --------------------------------------------------

  /** A framing whose divider and marker are single lines that begin with printable
      characters, the marker with one that no divider holds. */
  predicate Usable(f: Format) {
    && OneLine(f.divider) && OneLine(f.marker)
    && f.divider != "" && f.marker != ""
    && !IsSpace(f.divider[0]) && !IsSpace(f.marker[0])
    && f.marker[0] !in f.divider
  }

  lemma DividerHoldsEquals(accepts: string -> bool, c: char)
    requires c != '='
    ensures c !in HelperFormat(accepts).divider
  {
  }

  lemma HelperFormatUsable(accepts: string -> bool)
    ensures Usable(HelperFormat(accepts))
  {
    DividerHoldsEquals(accepts, '\n');
    DividerHoldsEquals(accepts, 'D');
    var marker := "Diagnostic: ";
    assert '\n' !in marker;
  }

  predicate Lined(s: seq<string>) {
    forall i | 0 <= i < |s| :: OneLine(s[i])
  }

  /** The first line at or after from that ends with a pattern, or the end of the
      stream. */
  function FirstEnding(s: seq<string>, pat: string, from: nat): (i: nat)
    requires from <= |s|
    ensures from <= i <= |s|
    ensures i < |s| ==> EndsWith(s[i], pat)
    ensures forall j | from <= j < i :: !EndsWith(s[j], pat)
    decreases |s| - from
  {
    if from == |s| then from
    else if EndsWith(s[from], pat) then from
    else FirstEnding(s, pat, from + 1)
  }

  /** The last line before a given one that ends with a pattern, or -1. */
  function LastEnding(s: seq<string>, pat: string, before: nat): (i: int)
    requires before <= |s|
    ensures -1 <= i < before
    ensures i >= 0 ==> EndsWith(s[i], pat)
    ensures forall j | i < j < before :: !EndsWith(s[j], pat)
  {
    if before == 0 then -1
    else if EndsWith(s[before - 1], pat) then before - 1
    else LastEnding(s, pat, before - 1)
  }

  /** Where a pattern stands at the end of line i. */
  function EndPos(s: seq<string>, i: nat, pat: string): (p: nat)
    requires i < |s| && EndsWith(s[i], pat)
    ensures Offset(s, i) <= p
  {
    Offset(s, i) + |s[i]| - |pat|
  }

  lemma {:induction false} OffsetStep(s: seq<string>, i: nat)
    requires i < |s|
    ensures Offset(s, i + 1) == Offset(s, i) + |s[i]| + 1
  {
    if i > 0 {
      OffsetStep(s[1..], i - 1);
    }
  }

  lemma EndPosInLine(s: seq<string>, i: nat, j: nat, pat: string)
    requires i < j <= |s| && EndsWith(s[i], pat)
    ensures EndPos(s, i, pat) < Offset(s, j) <= |Bundle(s)|
  {
    OffsetMonotone(s, i, j);
  }

  lemma EndPosOccurs(s: seq<string>, i: nat, pat: string)
    requires Lined(s) && OneLine(pat) && i < |s| && EndsWith(s[i], pat)
    ensures Occurs(Bundle(s), EndPos(s, i, pat), pat + "\n")
  {
    assert AtLineEnd(s, i, pat, EndPos(s, i, pat));
    OccursAtLineEnd(s, pat, EndPos(s, i, pat));
  }

  /** An occurrence of a newline-terminated pattern ends a line. */
  lemma LineOfOccurrence(s: seq<string>, pat: string, p: int) returns (j: nat)
    requires Lined(s) && OneLine(pat) && Occurs(Bundle(s), p, pat + "\n")
    ensures j < |s| && EndsWith(s[j], pat) && p == EndPos(s, j, pat)
  {
    OccursAtLineEnd(s, pat, p);
    j :| 0 <= j < |s| && AtLineEnd(s, j, pat, p);
  }

  /** A pattern that ends a line from a given one on does not stand before the first. */
  lemma PlaceAfter(s: seq<string>, pat: string, from: nat, j: nat)
    requires from <= |s| && j < |s| && EndsWith(s[j], pat) && Offset(s, from) <= EndPos(s, j, pat)
    ensures var i := FirstEnding(s, pat, from); i <= j && EndPos(s, i, pat) <= EndPos(s, j, pat)
  {
    var i := FirstEnding(s, pat, from);
    if j < from { EndPosInLine(s, j, from, pat); }
    if i < j { EndPosInLine(s, i, j, pat); }
  }

  lemma NoneEarlier(s: seq<string>, pat: string, from: nat, q: nat)
    requires Lined(s) && OneLine(pat) && from <= |s| && Offset(s, from) <= q
    requires var i := FirstEnding(s, pat, from); i < |s| ==> q < EndPos(s, i, pat)
    ensures !Occurs(Bundle(s), q, pat + "\n")
  {
    if Occurs(Bundle(s), q, pat + "\n") {
      var j := LineOfOccurrence(s, pat, q);
      PlaceAfter(s, pat, from, j);
    }
  }

  lemma FirstIs(text: string, pat: string, from: nat, p: int)
    requires p == -1 || (from <= p && Occurs(text, p, pat))
    requires forall q | from <= q && (p == -1 || q < p) :: !Occurs(text, q, pat)
    ensures IndexOf(text, pat, from) == p
  {
    IndexOfFirst(text, pat, from);
  }

  /** A search downward in the text finds what a search of the lines finds. */
  lemma FirstFound(s: seq<string>, pat: string, from: nat)
    requires Lined(s) && OneLine(pat) && from <= |s|
    ensures var i := FirstEnding(s, pat, from);
            IndexOf(Bundle(s), pat + "\n", Offset(s, from)) == if i < |s| then EndPos(s, i, pat) else -1
  {
    var i := FirstEnding(s, pat, from);
    var p := if i < |s| then EndPos(s, i, pat) else -1;
    if i < |s| {
      OffsetMonotone(s, from, i);
      EndPosOccurs(s, i, pat);
    }
    forall q | Offset(s, from) <= q && (p == -1 || q < p) ensures !Occurs(Bundle(s), q, pat + "\n") {
      NoneEarlier(s, pat, from, q);
    }
    FirstIs(Bundle(s), pat + "\n", Offset(s, from), p);
  }

  /** A place in the text before which the patterns of the first lines end, and behind
      which those of the other lines do. */
  ghost predicate Parts(s: seq<string>, pat: string, before: nat, from: int)
    requires before <= |s|
  {
    && (forall j | 0 <= j < before :: EndsWith(s[j], pat) ==> EndPos(s, j, pat) <= from)
    && (forall j | before <= j < |s| :: EndsWith(s[j], pat) ==> from < EndPos(s, j, pat))
  }

  /** Where a pattern stands at the end of a line, or -1 for no line. */
  function PlaceOf(s: seq<string>, pat: string, line: int): int
    requires line >= 0 ==> line < |s| && EndsWith(s[line], pat)
  {
    if line >= 0 then EndPos(s, line, pat) else -1
  }

  lemma NoneLater(s: seq<string>, pat: string, before: nat, from: int, q: int)
    requires Lined(s) && OneLine(pat) && before <= |s| && Parts(s, pat, before, from) && q <= from
    requires var i := LastEnding(s, pat, before); i >= 0 ==> EndPos(s, i, pat) < q
    ensures !Occurs(Bundle(s), q, pat + "\n")
  {
    if Occurs(Bundle(s), q, pat + "\n") {
      var i := LastEnding(s, pat, before);
      var j := LineOfOccurrence(s, pat, q);
      if j < i { EndPosInLine(s, j, i, pat); }
    }
  }

  lemma LastIs(text: string, pat: string, from: int, p: int)
    requires p == -1 || (0 <= p <= from && Occurs(text, p, pat))
    requires forall q | p < q <= from :: !Occurs(text, q, pat)
    ensures LastAtOrBefore(text, pat, from) == p
  {
    LastAtOrBeforeLast(text, pat, from);
  }

  /** A search upward in the text finds what a search of the lines finds. */
  lemma LastFound(s: seq<string>, pat: string, before: nat, from: int)
    requires Lined(s) && OneLine(pat) && before <= |s| && Parts(s, pat, before, from)
    ensures LastAtOrBefore(Bundle(s), pat + "\n", from) == PlaceOf(s, pat, LastEnding(s, pat, before))
  {
    var i := LastEnding(s, pat, before);
    var p := PlaceOf(s, pat, i);
    if i >= 0 {
      EndPosOccurs(s, i, pat);
    }
    forall q | p < q <= from ensures !Occurs(Bundle(s), q, pat + "\n") {
      NoneLater(s, pat, before, from, q);
    }
    LastIs(Bundle(s), pat + "\n", from, p);
  }

  /** A place in line m that is not before the start of the line and is before any
      pattern that ends the line. */
  lemma PartsAt(s: seq<string>, pat: string, m: nat, from: int)
    requires m < |s| && Offset(s, m) - 1 <= from
    requires forall j | m <= j < |s| :: EndsWith(s[j], pat) ==> from < EndPos(s, j, pat)
    ensures Parts(s, pat, m, from)
  {
    forall j | 0 <= j < m && EndsWith(s[j], pat) ensures EndPos(s, j, pat) <= from {
      EndPosInLine(s, j, m, pat);
    }
  }

  // ----- The parser on the lines ----------------------------------------------

  /** What precedes the divider at the end of line e. */
  function Before(f: Format, s: seq<string>, e: nat): string
    requires e < |s| ==> EndsWith(s[e], f.divider)
  {
    if e < |s| then s[e][..|s[e]| - |f.divider|] else ""
  }

  /** The text from a pattern at the end of line i up to the divider at the end of
      line e, or up to the end of the stream. */
  function TextBetween(f: Format, s: seq<string>, pat: string, i: nat, e: nat): string
    requires i < e <= |s| && (e < |s| ==> EndsWith(s[e], f.divider))
  {
    pat + "\n" + Bundle(s[i + 1..e]) + Before(f, s, e)
  }

  /** The text the parser reads when line m is the first that ends with the marker.  It
      starts at the second divider above, or at the only one, or at the marker, and
      ends at the first divider below.  A divider that is the very first thing in the
      text makes the search for the second one start over at the end of the text. */
  function ReadAt(f: Format, s: seq<string>, marker: string, m: nat): Option<string>
    requires m < |s|
  {
    var e := FirstEnding(s, f.divider, m + 1);
    var above := LastEnding(s, f.divider, m);
    if above < 0 then Kept(TextBetween(f, s, marker, m, e))
    else if above == 0 && f.IsDivider(s[0]) then ReadWrapped(f, s, e)
    else
      var prior := LastEnding(s, f.divider, above);
      Kept(TextBetween(f, s, f.divider, if prior >= 0 then prior else above, e))
  }

  function ReadWrapped(f: Format, s: seq<string>, e: nat): Option<string>
    requires e <= |s| && s != [] && EndsWith(s[0], f.divider) && (e < |s| ==> EndsWith(s[e], f.divider))
  {
    var last := LastEnding(s, f.divider, |s|);
    if last == e then None
    else Kept(TextBetween(f, s, f.divider, last, if last < e then e else |s|))
  }

  /** What the parser stores for a key, told on the lines. */
  function StoredAtEnd(f: Format, s: seq<string>, key: string): Option<string> {
    var m := FirstEnding(s, f.marker + key, 0);
    if m == |s| then None else ReadAt(f, s, f.marker + key, m)
  }

  function Kept(text: string): Option<string> {
    if Trim(text) == "" then None else Some(Trim(text))
  }

  lemma LineText(s: seq<string>, i: nat)
    requires i < |s|
    ensures Offset(s, i) + |s[i]| + 1 == Offset(s, i + 1) <= |Bundle(s)|
    ensures Bundle(s)[Offset(s, i)..Offset(s, i + 1)] == s[i] + "\n"
  {
    BundleSlice(s, i, i + 1);
    OffsetStep(s, i);
    assert s[i..i + 1] == [s[i]];
  }

  /** A piece that ends a pattern's length before the end of a line. */
  lemma LinePieces(text: string, a: nat, line: string, pat: string)
    requires a + |line| + 1 <= |text| && text[a..a + |line| + 1] == line + "\n"
    requires EndsWith(line, pat)
    ensures text[a..a + |line| - |pat|] == line[..|line| - |pat|]
    ensures text[a + |line| - |pat|..a + |line| + 1] == pat + "\n"
  {
    var whole, cut := text[a..a + |line| + 1], |line| - |pat|;
    assert text[a..a + cut] == whole[..cut];
    assert text[a + cut..a + |line| + 1] == whole[cut..];
    assert (line + "\n")[..cut] == line[..cut];
    assert (line + "\n")[cut..] == line[cut..] + "\n";
  }

  /** Where the text before the divider of line e ends. */
  function EndOf(f: Format, s: seq<string>, e: nat): nat
    requires e < |s| ==> EndsWith(s[e], f.divider)
  {
    if e < |s| then EndPos(s, e, f.divider) else |Bundle(s)|
  }

  lemma BeforeText(f: Format, s: seq<string>, e: nat)
    requires e <= |s| && (e < |s| ==> EndsWith(s[e], f.divider))
    ensures Offset(s, e) <= EndOf(f, s, e) <= |Bundle(s)|
    ensures Bundle(s)[Offset(s, e)..EndOf(f, s, e)] == Before(f, s, e)
  {
    if e < |s| {
      LineText(s, e);
      LinePieces(Bundle(s), Offset(s, e), s[e], f.divider);
    } else {
      BundleSlice(s, e, e);
    }
  }

  lemma PatternText(s: seq<string>, pat: string, i: nat)
    requires i < |s| && EndsWith(s[i], pat)
    ensures EndPos(s, i, pat) <= Offset(s, i + 1) <= |Bundle(s)|
    ensures Bundle(s)[EndPos(s, i, pat)..Offset(s, i + 1)] == pat + "\n"
  {
    LineText(s, i);
    LinePieces(Bundle(s), Offset(s, i), s[i], pat);
  }

  lemma Adjacent(text: string, a: nat, b: nat, c: nat, d: nat)
    requires a <= b <= c <= d <= |text|
    ensures text[a..d] == text[a..b] + text[b..c] + text[c..d]
  {
  }

  /** The slice of the text that TextBetween stands for. */
  lemma TextBetweenIs(f: Format, s: seq<string>, pat: string, i: nat, e: nat)
    requires i < e <= |s| && EndsWith(s[i], pat) && (e < |s| ==> EndsWith(s[e], f.divider))
    ensures EndPos(s, i, pat) <= EndOf(f, s, e) <= |Bundle(s)|
    ensures Bundle(s)[EndPos(s, i, pat)..EndOf(f, s, e)] == TextBetween(f, s, pat, i, e)
  {
    PatternText(s, pat, i);
    BundleSlice(s, i + 1, e);
    BeforeText(f, s, e);
    Adjacent(Bundle(s), EndPos(s, i, pat), Offset(s, i + 1), Offset(s, e), EndOf(f, s, e));
  }

  lemma CutIs(bundle: string, start: nat, end: nat, next: int)
    requires start <= end <= |bundle|
    requires next == end || (next < 0 && end == |bundle|)
    ensures Cut(bundle, start, next) == Kept(bundle[start..end])
  {
    assert Mid(bundle, start, end - start) == bundle[start..end];
  }

  /** A section that starts behind its end takes the rest of the text. */
  lemma CutBackwards(bundle: string, start: nat, next: nat, rest: string)
    requires next < start <= |bundle| && rest == bundle[start..|bundle|]
    ensures Cut(bundle, start, next) == Kept(rest)
  {
    assert bundle[start..] == rest;
    assert Mid(bundle, start, next - start) == bundle[start..];
  }

  /** Where the parser starts the section of the marker at the end of line m. */
  function StartOf(f: Format, s: seq<string>, pat: string, m: nat): nat
    requires m < |s| && EndsWith(s[m], pat)
  {
    var above := LastEnding(s, f.divider, m);
    if above < 0 then EndPos(s, m, pat)
    else
      var prior := PriorOf(f, s, above);
      if prior >= 0 then prior else EndPos(s, above, f.divider)
  }

  /** Where the second divider stands when line a ends with the first. */
  function PriorOf(f: Format, s: seq<string>, a: nat): int
    requires a < |s| && EndsWith(s[a], f.divider)
  {
    PlaceOf(s, f.divider, LastEnding(s, f.divider, if a == 0 && f.IsDivider(s[0]) then |s| else a))
  }

  lemma SuffixHead(line: string, a: string, b: string)
    requires EndsWith(line, a) && EndsWith(line, b) && 0 < |a| <= |b|
    ensures a[0] in b
  {
    assert b[|b| - |a|] == line[|line| - |a|] == a[0];
  }

  /** At the end of a line that carries a marker the marker is longer than any divider. */
  lemma MarkerIsLonger(f: Format, line: string, pat: string)
    requires Usable(f) && f.marker <= pat && EndsWith(line, pat) && EndsWith(line, f.divider)
    ensures |f.divider| < |pat|
  {
    if |pat| <= |f.divider| {
      SuffixHead(line, pat, f.divider);
    }
  }

  lemma DividersAroundMarker(f: Format, s: seq<string>, pat: string, m: nat)
    requires Usable(f) && f.marker <= pat && m < |s| && EndsWith(s[m], pat)
    ensures Parts(s, f.divider, m, EndPos(s, m, pat))
  {
    forall j | m <= j < |s| && EndsWith(s[j], f.divider) ensures EndPos(s, m, pat) < EndPos(s, j, f.divider) {
      if j == m {
        MarkerIsLonger(f, s[m], pat);
      } else {
        EndPosInLine(s, m, j, pat);
      }
    }
    PartsAt(s, f.divider, m, EndPos(s, m, pat));
  }

  lemma DividersAroundDivider(f: Format, s: seq<string>, a: nat)
    requires a < |s| && EndsWith(s[a], f.divider)
    ensures Parts(s, f.divider, a, EndPos(s, a, f.divider) - 1)
  {
    forall j | a <= j < |s| && EndsWith(s[j], f.divider)
      ensures EndPos(s, a, f.divider) <= EndPos(s, j, f.divider)
    {
      if j > a { EndPosInLine(s, a, j, f.divider); }
    }
    PartsAt(s, f.divider, a, EndPos(s, a, f.divider) - 1);
  }

  lemma DividersInText(f: Format, s: seq<string>)
    ensures Parts(s, f.divider, |s|, |Bundle(s)| - 1)
  {
    forall j | 0 <= j < |s| && EndsWith(s[j], f.divider) ensures EndPos(s, j, f.divider) < |Bundle(s)| {
      EndPosInLine(s, j, |s|, f.divider);
    }
  }

  /** Where the search for the second divider starts, from the first one at a place. */
  function SearchStart(bundle: string, above: nat): int {
    if above == 0 then |bundle| - 1 else above - 1
  }

  /** The search for the second divider: it starts over if the first one begins the text. */
  lemma SecondParts(f: Format, s: seq<string>, a: nat, above: nat)
    requires Usable(f) && a < |s| && EndsWith(s[a], f.divider) && above == EndPos(s, a, f.divider)
    ensures var before := if a == 0 && f.IsDivider(s[0]) then |s| else a;
            Parts(s, f.divider, before, SearchStart(Bundle(s), above))
  {
    FirstInText(f, s, a);
    if above == 0 {
      DividersInText(f, s);
    } else {
      DividersAroundDivider(f, s, a);
    }
  }

  lemma SecondFound(f: Format, s: seq<string>, a: nat, above: nat)
    requires Usable(f) && Lined(s) && a < |s| && EndsWith(s[a], f.divider) && above == EndPos(s, a, f.divider)
    ensures LastAtOrBefore(Bundle(s), f.divider + "\n", SearchStart(Bundle(s), above)) == PriorOf(f, s, a)
  {
    var before := if a == 0 && f.IsDivider(s[0]) then |s| else a;
    SecondParts(f, s, a, above);
    LastFound(s, f.divider, before, SearchStart(Bundle(s), above));
  }

  lemma FirstInText(f: Format, s: seq<string>, a: nat)
    requires Usable(f) && a < |s| && EndsWith(s[a], f.divider)
    ensures EndPos(s, a, f.divider) == 0 <==> a == 0 && f.IsDivider(s[0])
  {
    OffsetMonotone(s, 0, a);
    assert s[0][0..] == s[0];
  }

  lemma StartWithout(bundle: string, divider: string, at: nat, above: int)
    requires above < 0
    ensures SectionStart(bundle, divider, at, above) == at
  {
  }

  lemma StartWith(bundle: string, divider: string, at: nat, above: nat, prior: int)
    requires LastAtOrBefore(bundle, divider, SearchStart(bundle, above)) == prior
    ensures SectionStart(bundle, divider, at, above) == if prior >= 0 then prior else above
  {
  }

  lemma SectionStartBelow(f: Format, s: seq<string>, a: nat, at: nat, above: nat, prior: int)
    requires Usable(f) && Lined(s) && a < |s| && EndsWith(s[a], f.divider) && above == EndPos(s, a, f.divider)
    requires prior == PriorOf(f, s, a)
    ensures SectionStart(Bundle(s), f.divider + "\n", at, above) == if prior >= 0 then prior else above
  {
    SecondFound(f, s, a, above);
    StartWith(Bundle(s), f.divider + "\n", at, above, prior);
  }

  lemma SectionStartIs(f: Format, s: seq<string>, pat: string, m: nat, at: nat, above: int)
    requires Usable(f) && Lined(s) && f.marker <= pat && m < |s| && EndsWith(s[m], pat) && at == EndPos(s, m, pat)
    requires above == LastIndexOf(Bundle(s), f.divider + "\n", at)
    ensures SectionStart(Bundle(s), f.divider + "\n", at, above) == StartOf(f, s, pat, m)
  {
    DividersAroundMarker(f, s, pat, m);
    LastFound(s, f.divider, m, at);
    if LastEnding(s, f.divider, m) >= 0 {
      var a := LastEnding(s, f.divider, m);
      SectionStartBelow(f, s, a, at, above, PriorOf(f, s, a));
    } else {
      StartWithout(Bundle(s), f.divider + "\n", at, above);
    }
  }

  lemma CutAt(f: Format, s: seq<string>, pat: string, i: nat, e: nat)
    requires i < e <= |s| && EndsWith(s[i], pat) && (e < |s| ==> EndsWith(s[e], f.divider))
    ensures Cut(Bundle(s), EndPos(s, i, pat), if e < |s| then EndPos(s, e, f.divider) else -1)
            == Kept(TextBetween(f, s, pat, i, e))
  {
    TextBetweenIs(f, s, pat, i, e);
    CutIs(Bundle(s), EndPos(s, i, pat), EndOf(f, s, e), if e < |s| then EndPos(s, e, f.divider) else -1);
  }

  /** Where the first divider below ends the section, or -1. */
  function NextOf(f: Format, s: seq<string>, e: nat): int
    requires e < |s| ==> EndsWith(s[e], f.divider)
  {
    if e < |s| then EndPos(s, e, f.divider) else -1
  }

  lemma NothingCut(bundle: string, at: nat)
    requires at <= |bundle|
    ensures Cut(bundle, at, at) == None
  {
    assert Mid(bundle, at, 0) == "";
  }

  lemma CutRest(f: Format, s: seq<string>, e: nat, last: nat)
    requires e < last < |s| && EndsWith(s[e], f.divider) && EndsWith(s[last], f.divider)
    ensures Cut(Bundle(s), EndPos(s, last, f.divider), EndPos(s, e, f.divider))
            == Kept(TextBetween(f, s, f.divider, last, |s|))
  {
    EndPosInLine(s, e, last, f.divider);
    TextBetweenIs(f, s, f.divider, last, |s|);
    var rest := TextBetween(f, s, f.divider, last, |s|);
    CutBackwards(Bundle(s), EndPos(s, last, f.divider), EndPos(s, e, f.divider), rest);
  }

  /** A section that starts at the last divider of the text. */
  lemma CutWrapped(f: Format, s: seq<string>, e: nat, last: nat)
    requires s != [] && EndsWith(s[0], f.divider) && e <= |s| && (e < |s| ==> EndsWith(s[e], f.divider))
    requires last == LastEnding(s, f.divider, |s|)
    ensures Cut(Bundle(s), EndPos(s, last, f.divider), NextOf(f, s, e)) == ReadWrapped(f, s, e)
  {
    if last < e {
      CutAt(f, s, f.divider, last, e);
    } else if last == e {
      EndPosInLine(s, e, |s|, f.divider);
      NothingCut(Bundle(s), EndPos(s, e, f.divider));
    } else {
      CutRest(f, s, e, last);
    }
  }

  lemma CutAlone(f: Format, s: seq<string>, pat: string, m: nat, e: nat)
    requires m < |s| && EndsWith(s[m], pat) && e == FirstEnding(s, f.divider, m + 1)
    requires LastEnding(s, f.divider, m) < 0
    ensures Cut(Bundle(s), StartOf(f, s, pat, m), NextOf(f, s, e)) == ReadAt(f, s, pat, m)
  {
    CutAt(f, s, pat, m, e);
  }

  lemma CutOver(f: Format, s: seq<string>, pat: string, m: nat, e: nat)
    requires m < |s| && EndsWith(s[m], pat) && e == FirstEnding(s, f.divider, m + 1)
    requires LastEnding(s, f.divider, m) == 0 && f.IsDivider(s[0])
    ensures Cut(Bundle(s), StartOf(f, s, pat, m), NextOf(f, s, e)) == ReadAt(f, s, pat, m)
  {
    assert EndsWith(s[0], f.divider);
    CutWrapped(f, s, e, LastEnding(s, f.divider, |s|));
  }

  lemma CutBelow(f: Format, s: seq<string>, pat: string, m: nat, e: nat, above: nat)
    requires m < |s| && EndsWith(s[m], pat) && e == FirstEnding(s, f.divider, m + 1)
    requires LastEnding(s, f.divider, m) == above && !(above == 0 && f.IsDivider(s[0]))
    ensures Cut(Bundle(s), StartOf(f, s, pat, m), NextOf(f, s, e)) == ReadAt(f, s, pat, m)
  {
    var prior := LastEnding(s, f.divider, above);
    CutAt(f, s, f.divider, if prior >= 0 then prior else above, e);
  }

  lemma CutOf(f: Format, s: seq<string>, pat: string, m: nat)
    requires m < |s| && EndsWith(s[m], pat)
    ensures var e := FirstEnding(s, f.divider, m + 1);
            Cut(Bundle(s), StartOf(f, s, pat, m), NextOf(f, s, e)) == ReadAt(f, s, pat, m)
  {
    var e, above := FirstEnding(s, f.divider, m + 1), LastEnding(s, f.divider, m);
    if above < 0 {
      CutAlone(f, s, pat, m, e);
    } else if above == 0 && f.IsDivider(s[0]) {
      CutOver(f, s, pat, m, e);
    } else {
      CutBelow(f, s, pat, m, e, above);
    }
  }

  /** What the parser finds around a marker. */
  ghost predicate Around(bundle: string, divider: string, at: nat, length: nat, start: int, next: int) {
    && SectionStart(bundle, divider, at, LastIndexOf(bundle, divider, at)) == start
    && IndexOf(bundle, divider, at + length) == next
  }

  lemma ParserWith(bundle: string, divider: string, at: nat, length: nat, start: int, next: int)
    requires Around(bundle, divider, at, length, start, next)
    ensures ExtractAt(bundle, divider, at, length) == Cut(bundle, start, next)
  {
  }

  lemma DividerBelow(f: Format, s: seq<string>, pat: string, m: nat, at: nat)
    requires Usable(f) && Lined(s) && m < |s| && EndsWith(s[m], pat) && at == EndPos(s, m, pat)
    ensures IndexOf(Bundle(s), f.divider + "\n", at + |pat + "\n"|)
            == NextOf(f, s, FirstEnding(s, f.divider, m + 1))
  {
    FirstFound(s, f.divider, m + 1);
    OffsetStep(s, m);
    assert at + |pat + "\n"| == Offset(s, m + 1);
  }

  lemma AroundMarker(f: Format, s: seq<string>, pat: string, m: nat, at: nat)
    requires Usable(f) && Lined(s) && f.marker <= pat && m < |s| && EndsWith(s[m], pat) && at == EndPos(s, m, pat)
    ensures var next := NextOf(f, s, FirstEnding(s, f.divider, m + 1));
            Around(Bundle(s), f.divider + "\n", at, |pat + "\n"|, StartOf(f, s, pat, m), next)
  {
    DividerBelow(f, s, pat, m, at);
    SectionStartIs(f, s, pat, m, at, LastIndexOf(Bundle(s), f.divider + "\n", at));
  }

  lemma ParserAt(f: Format, s: seq<string>, pat: string, m: nat, at: nat)
    requires Usable(f) && Lined(s) && f.marker <= pat && m < |s| && EndsWith(s[m], pat) && at == EndPos(s, m, pat)
    ensures ExtractAt(Bundle(s), f.divider + "\n", at, |pat + "\n"|) == ReadAt(f, s, pat, m)
  {
    var next := NextOf(f, s, FirstEnding(s, f.divider, m + 1));
    AroundMarker(f, s, pat, m, at);
    ParserWith(Bundle(s), f.divider + "\n", at, |pat + "\n"|, StartOf(f, s, pat, m), next);
    CutOf(f, s, pat, m);
  }

  /** The end-of-run parser, told on the lines of its text: for every text of single
      lines and every key it stores exactly what StoredAtEnd tells. */
  lemma ParserOnLines(f: Format, s: seq<string>, key: string)
    requires Usable(f) && Lined(s) && OneLine(key)
    ensures ExtractKey(f, Bundle(s), key) == StoredAtEnd(f, s, key)
  {
    var pat := f.marker + key;
    var m := FirstEnding(s, pat, 0);
    FirstFound(s, pat, 0);
    if m < |s| {
      ParserAt(f, s, pat, m, EndPos(s, m, pat));
    }
  }
}
