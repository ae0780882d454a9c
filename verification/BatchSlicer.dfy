/** The batch view of the section stream that src/ProgressiveDiagnosticAssembler.h
    describes, and the theorems that the incremental assembler meets it. */
module BatchSlicer {
  import opened SectionAssembler

  predicate InStream(f: Format, s: seq<string>, h: seq<nat>) {
    forall j | 0 <= j < |h| :: h[j] < |s| && f.IsMarkerLine(s[h[j]])
  }

  /** The headers of a stream, in order. */
  function Headers(f: Format, s: seq<string>): (h: seq<nat>)
    ensures InStream(f, s, h)
  {
    if s == [] then []
    else
      var last := |s| - 1;
      var before := Headers(f, s[..last]);
      if IsHeader(f, s, last) then before + [last] else before
  }

  lemma {:induction false} HeadersExact(f: Format, s: seq<string>)
    ensures var h := Headers(f, s);
            && (forall i: nat :: i in h <==> IsHeader(f, s, i))
            && (forall j, k | 0 <= j < k < |h| :: h[j] < h[k])
            && LastHeader(f, s) == if h == [] then -1 else h[|h| - 1]
  {
    if s != [] {
      var last := |s| - 1;
      HeadersExact(f, s[..last]);
      assert forall i: nat | i < last :: IsHeader(f, s, i) <==> IsHeader(f, s[..last], i);
    }
  }

  /** The sections that a later header closes. */
  function ClosedSlices(f: Format, s: seq<string>, h: seq<nat>): seq<Slice>
    requires InStream(f, s, h)
  {
    seq(if h == [] then 0 else |h| - 1, j requires 0 <= j < |h| - 1 => Between(f, s, h[j], h[j + 1]))
  }

  /** The batch slicer: each section runs from its header's frame to the frame of
      the next header, the last one to the end of the stream. */
  function Slices(f: Format, s: seq<string>): seq<Slice> {
    SlicesOf(f, s, Headers(f, s))
  }

  function SlicesOf(f: Format, s: seq<string>, h: seq<nat>): seq<Slice>
    requires InStream(f, s, h)
  {
    ClosedSlices(f, s, h) + if h == [] then [] else [Final(f, s, h[|h| - 1])]
  }

  /** What a list of slices reports, in order. */
  function Select(s: seq<string>, slices: seq<Slice>): seq<Section> {
    if slices == [] then []
    else Select(s, slices[..|slices| - 1]) + Report(s, slices[|slices| - 1])
  }

  lemma SelectAppend(s: seq<string>, slices: seq<Slice>, x: Slice)
    ensures Select(s, slices + [x]) == Select(s, slices) + Report(s, x)
  {
    assert (slices + [x])[..|slices|] == slices;
  }

  lemma {:induction false} SelectExtends(s: seq<string>, t: seq<string>, slices: seq<Slice>)
    requires s <= t
    requires forall j | 0 <= j < |slices| :: slices[j].end <= |s|
    ensures Select(t, slices) == Select(s, slices)
  {
    if slices != [] {
      SelectExtends(s, t, slices[..|slices| - 1]);
      var x := slices[|slices| - 1];
      assert x.start <= x.end ==> s[x.start..x.end] == t[x.start..x.end];
    }
  }

  lemma BetweenExtends(f: Format, s: seq<string>, t: seq<string>, i: nat, k: nat)
    requires s <= t && i < |s| && k < |s| && f.IsMarkerLine(s[i])
    ensures t[i] == s[i] && Between(f, t, i, k) == Between(f, s, i, k) && Between(f, s, i, k).end <= |s|
  {
    assert forall j | 0 <= j < |s| :: t[j] == s[j];
  }

  lemma ClosedSlicesExtend(f: Format, s: seq<string>, t: seq<string>, h: seq<nat>)
    requires s <= t && InStream(f, s, h)
    ensures InStream(f, t, h)
    ensures ClosedSlices(f, t, h) == ClosedSlices(f, s, h)
    ensures Select(t, ClosedSlices(f, t, h)) == Select(s, ClosedSlices(f, s, h))
  {
    var c := ClosedSlices(f, s, h);
    forall j | 0 <= j < |h| ensures t[h[j]] == s[h[j]] {
      BetweenExtends(f, s, t, h[j], h[j]);
    }
    var d := ClosedSlices(f, t, h);
    forall j | 0 <= j < |c| ensures d[j] == c[j] && c[j].end <= |s| {
      BetweenExtends(f, s, t, h[j], h[j + 1]);
    }
    assert d == c;
    SelectExtends(s, t, c);
  }

  lemma ClosedSlicesAppend(f: Format, s: seq<string>, h: seq<nat>, i: nat)
    requires InStream(f, s, h) && h != [] && i < |s| && f.IsMarkerLine(s[i])
    ensures InStream(f, s, h + [i])
    ensures ClosedSlices(f, s, h + [i]) == ClosedSlices(f, s, h) + [Between(f, s, h[|h| - 1], i)]
  {
  }

  lemma {:induction false} ReportedIsSelect(f: Format, s: seq<string>)
    ensures Reported(f, s) == Select(s, ClosedSlices(f, s, Headers(f, s)))
  {
    if s != [] {
      var last := |s| - 1;
      var init, h := s[..last], Headers(f, s[..last]);
      ReportedIsSelect(f, init);
      HeadersExact(f, init);
      ClosedSlicesExtend(f, init, s, h);
      if IsHeader(f, s, last) && h != [] {
        ClosedSlicesAppend(f, s, h, last);
        SelectAppend(s, ClosedSlices(f, s, h), Between(f, s, h[|h| - 1], last));
      }
    }
  }

  /** Feeding a stream line by line and finishing reports, in order, the sections
      of the batch slicer that survive the buffer: those with a key and at least
      one line whose first line is still buffered when they close. */
  lemma AssemblerIsBatchSlicer(f: Format, s: seq<string>)
    ensures Reported(f, s) + ClosedByEnd(f, s) == Select(s, Slices(f, s))
  {
    var h := Headers(f, s);
    ReportedIsSelect(f, s);
    HeadersExact(f, s);
    if h != [] {
      SelectAppend(s, ClosedSlices(f, s, h), Final(f, s, h[|h| - 1]));
    }
  }

  // ----- Order and disjointness -----------------------------------------------

  /** Headers j and j + 1: the second is the fourth line of a frame whose title is
      the first, and the first has no frame of its own. */
  predicate Tangled(f: Format, s: seq<string>, h: seq<nat>, j: nat)
    requires InStream(f, s, h) && j + 1 < |h|
  {
    h[j + 1] == h[j] + 2 && Framed(f, s, h[j + 1]) && !Framed(f, s, h[j])
  }

  /** No line is both a header and a divider, as for the helper's own framing. */
  ghost predicate Distinct(f: Format) {
    forall line :: f.IsMarkerLine(line) ==> !f.IsDivider(line)
  }

  /** Two neighbouring sections are in order exactly when they are not tangled. */
  lemma InOrderIff(f: Format, s: seq<string>, j: nat)
    requires Distinct(f) && j + 1 < |Headers(f, s)|
    ensures var h := Headers(f, s);
            FrameStart(f, s, h[j]) < FrameStart(f, s, h[j + 1]) <==> !Tangled(f, s, h, j)
  {
    HeadersExact(f, s);
    var h := Headers(f, s);
    var i, k := h[j], h[j + 1];
    assert i < k;
    if Framed(f, s, k) {
      assert i != k - 1 && i != k - 3;
    }
  }

  /** A stream whose sections all have a key and are all in order. */
  ghost predicate Orderly(f: Format, s: seq<string>) {
    var h := Headers(f, s);
    && (forall j | 0 <= j < |h| :: f.MarkerKey(s[h[j]]) != "")
    && (forall j: nat | j + 1 < |h| :: !Tangled(f, s, h, j))
  }

  function Concat(parts: seq<seq<string>>): seq<string> {
    if parts == [] then [] else Concat(parts[..|parts| - 1]) + parts[|parts| - 1]
  }

  /** The text before the first frame. */
  function Preamble(f: Format, s: seq<string>): seq<string> {
    var h := Headers(f, s);
    if h == [] then s else s[..FrameStart(f, s, h[0])]
  }

  function RawSections(s: seq<string>, slices: seq<Slice>): seq<seq<string>> {
    seq(|slices|, j requires 0 <= j < |slices| => Lines(s, slices[j]))
  }

  lemma SliceAt(f: Format, s: seq<string>, h: seq<nat>, j: nat)
    requires InStream(f, s, h) && j < |h|
    ensures |SlicesOf(f, s, h)| == |h|
    ensures SlicesOf(f, s, h)[j] == if j + 1 < |h| then Between(f, s, h[j], h[j + 1]) else Final(f, s, h[j])
  {
  }

  lemma SliceInOrder(f: Format, s: seq<string>, j: nat)
    requires Distinct(f) && Orderly(f, s) && j < |Headers(f, s)|
    ensures var x, h := Slices(f, s), Headers(f, s);
            && |x| == |h|
            && x[j].start == FrameStart(f, s, h[j]) < x[j].end <= |s|
            && x[j].key != "" && x[j].closedAt <= |s|
            && x[j].end == if j + 1 < |x| then FrameStart(f, s, h[j + 1]) else |s|
  {
    SliceAt(f, s, Headers(f, s), j);
    if j + 1 < |Headers(f, s)| {
      InOrderIff(f, s, j);
    }
  }

  /** Section j has a key and lines, and ends where the next one starts, or with the
      stream. */
  predicate Fits(s: seq<string>, x: seq<Slice>, j: nat)
    requires j < |x|
  {
    && x[j].start < x[j].end <= |s| && x[j].key != "" && x[j].closedAt <= |s|
    && x[j].end == if j + 1 < |x| then x[j + 1].start else |s|
  }

  ghost predicate Tiles(s: seq<string>, x: seq<Slice>) {
    forall j | 0 <= j < |x| :: Fits(s, x, j)
  }

  lemma SliceFits(f: Format, s: seq<string>, x: seq<Slice>, j: nat)
    requires Distinct(f) && Orderly(f, s) && x == Slices(f, s) && j < |x| == |Headers(f, s)|
    ensures Fits(s, x, j)
  {
    SliceInOrder(f, s, j);
    if j + 1 < |x| {
      SliceInOrder(f, s, j + 1);
    }
  }

  lemma SliceCount(f: Format, s: seq<string>)
    ensures |Slices(f, s)| == |Headers(f, s)|
  {
    var h := Headers(f, s);
    if h != [] { SliceAt(f, s, h, 0); }
  }

  lemma SlicesInOrder(f: Format, s: seq<string>, x: seq<Slice>)
    requires Distinct(f) && Orderly(f, s) && x == Slices(f, s)
    ensures |x| == |Headers(f, s)| && Tiles(s, x)
  {
    SliceCount(f, s);
    forall j | 0 <= j < |x| ensures Fits(s, x, j) {
      SliceFits(f, s, x, j);
    }
  }

  lemma FirstSlice(f: Format, s: seq<string>, x: seq<Slice>)
    requires Distinct(f) && Orderly(f, s) && x == Slices(f, s) && x != []
    ensures Headers(f, s) != [] && x[0].start == FrameStart(f, s, Headers(f, s)[0])
  {
    SliceCount(f, s);
    SliceInOrder(f, s, 0);
  }

  lemma OneMorePart(s: seq<string>, x: seq<Slice>, n: nat)
    requires n < |x|
    ensures Concat(RawSections(s, x[..n + 1])) == Concat(RawSections(s, x[..n])) + Lines(s, x[n])
  {
    var parts := RawSections(s, x[..n + 1]);
    assert parts[..n] == RawSections(s, x[..n]);
  }

  lemma {:induction false} ConcatTelescopes(s: seq<string>, x: seq<Slice>, n: nat)
    requires Tiles(s, x) && 0 < n <= |x|
    ensures Fits(s, x, n - 1) && x[0].start <= x[n - 1].end <= |s|
    ensures Concat(RawSections(s, x[..n])) == s[x[0].start..x[n - 1].end]
  {
    var last := x[n - 1];
    assert Fits(s, x, n - 1);
    OneMorePart(s, x, n - 1);
    if n == 1 {
      assert RawSections(s, x[..0]) == [];
    } else {
      ConcatTelescopes(s, x, n - 1);
      assert s[x[0].start..last.start] + s[last.start..last.end] == s[x[0].start..last.end];
    }
  }

  /** In an orderly stream the text before the first frame and the sections, in
      order, are the stream: nothing is lost, repeated or moved. */
  lemma SectionsPartitionStream(f: Format, s: seq<string>)
    requires Distinct(f) && Orderly(f, s)
    ensures Preamble(f, s) + Concat(RawSections(s, Slices(f, s))) == s
  {
    var x := Slices(f, s);
    SlicesInOrder(f, s, x);
    if x == [] {
      assert Concat(RawSections(s, x)) == [];
    } else {
      FirstSlice(f, s, x);
      ConcatAll(s, x);
      SplitJoins(s, x[0].start, Preamble(f, s), Concat(RawSections(s, x)));
    }
  }

  lemma ConcatAll(s: seq<string>, x: seq<Slice>)
    requires Tiles(s, x) && x != []
    ensures x[0].start <= |s| && Concat(RawSections(s, x)) == s[x[0].start..]
  {
    ConcatTelescopes(s, x, |x|);
    assert x[..|x|] == x && Fits(s, x, |x| - 1);
  }

  lemma SplitJoins(s: seq<string>, n: nat, front: seq<string>, back: seq<string>)
    requires n <= |s| && front == s[..n] && back == s[n..]
    ensures front + back == s
  {
  }

  // ----- What the bounded buffer costs ----------------------------------------

  /** A section is lost to the buffer only if it is long: up to 6144 lines from its
      frame to the header that closes it always survive, more than 8192 never do. */
  lemma ShortSectionsSurvive(x: Slice)
    requires x.key != "" && x.start < x.end
    ensures x.closedAt <= x.start + (MAX_LINES - DROP_CHUNK) ==> Survives(x)
    ensures x.closedAt > x.start + MAX_LINES ==> !Survives(x)
  {
    DroppedStep(x.closedAt);
  }

  lemma {:induction false} SelectAll(s: seq<string>, slices: seq<Slice>)
    requires forall j | 0 <= j < |slices| :: Survives(slices[j])
    ensures Select(s, slices)
            == seq(|slices|, j requires 0 <= j < |slices| => Section(slices[j].key, Lines(s, slices[j])))
  {
    if slices != [] {
      SelectAll(s, slices[..|slices| - 1]);
    }
  }

  /** On an orderly stream that fits the buffer the assembler reports every section
      of the batch slicer, with its key and exact lines, in order. */
  lemma OrderlyStreamFullyReported(f: Format, s: seq<string>)
    requires Distinct(f) && Orderly(f, s) && |s| <= MAX_LINES
    ensures var x := Slices(f, s);
            Reported(f, s) + ClosedByEnd(f, s)
            == seq(|x|, j requires 0 <= j < |x| => Section(x[j].key, Lines(s, x[j])))
  {
    var x := Slices(f, s);
    SlicesInOrder(f, s, x);
    forall j | 0 <= j < |x| ensures Survives(x[j]) {
      assert Fits(s, x, j);
      DroppedStep(x[j].closedAt);
    }
    SelectAll(s, x);
    AssemblerIsBatchSlicer(f, s);
  }

  /** One helper run as the GUI drives it: a feed per line, then a finish. */
  method Assemble(f: Format, stream: seq<string>) returns (reported: seq<Section>, started: seq<string>)
    ensures reported == Select(stream, Slices(f, stream))
    ensures started == Started(f, stream)
  {
    var assembler := new Assembler(f);
    for i := 0 to |stream|
      invariant assembler.Valid() && !assembler.finished && assembler.f == f
      invariant assembler.fed == stream[..i]
    {
      assembler.Feed(stream[i]);
    }
    assert stream[..|stream|] == stream;
    assembler.Finish();
    AssemblerIsBatchSlicer(f, stream);
    reported, started := assembler.reported, assembler.started;
  }
}
