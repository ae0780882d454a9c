/** Trimmed texts of several lines: what QString::trimmed leaves of a captured section,
    and when it leaves the same of two. */
module SolidLines {
  import opened Text
  import opened SectionAssembler
  import opened EndOfRun

  // ----- Trimmed texts --------------------------------------------------------

  predicate Visible(x: string) { x != "" && !IsSpace(x[0]) }

  lemma {:induction false} TrimNewline(x: string)
    ensures Trim(x + "\n") == Trim(x)
  {
    if x == "" {
      assert TrimLeft("\n") == TrimLeft("\n"[1..]);
    } else if IsSpace(x[0]) {
      assert (x + "\n")[1..] == x[1..] + "\n";
      TrimNewline(x[1..]);
    } else {
      assert TrimRight(x + "\n") == TrimRight(x) by {
        assert (x + "\n")[..|x|] == x;
      }
    }
  }

  lemma {:induction false} TrimRightKeeps(u: string, v: string)
    requires Visible(v)
    ensures |u| < |TrimRight(u + v)| <= |u + v|
    ensures u <= TrimRight(u + v)
    decreases |v|
  {
    var x := u + v;
    if IsSpace(x[|x| - 1]) {
      assert x[..|x| - 1] == u + v[..|v| - 1];
      TrimRightKeeps(u, v[..|v| - 1]);
    }
  }

  lemma TrimHead(x: string)
    requires Visible(x)
    ensures Trim(x) != "" && Trim(x)[0] == x[0]
  {
    TrimRightKeeps(x[..0], x);
    assert x[..0] + x == x;
    TrimPrefix(x);
  }

  lemma TrimPrefix(x: string)
    ensures TrimRight(x) <= x
  {
  }

  lemma TrimGrows(x: string, y: string)
    requires Visible(x) && Visible(y)
    ensures Trim(x) != "" && Trim(x + y) != Trim(x)
  {
    TrimHead(x);
    TrimPrefix(x);
    TrimRightKeeps(x, y);
    assert (x + y)[0] == x[0];
  }

  lemma {:induction false} JoinBundle(lines: seq<string>)
    requires lines != []
    ensures Bundle(lines) == Join(lines) + "\n"
  {
    if |lines| > 1 {
      JoinBundle(lines[1..]);
    }
  }

  lemma {:induction false} BundleAppend(a: seq<string>, b: seq<string>)
    ensures Bundle(a + b) == Bundle(a) + Bundle(b)
  {
    if a == [] {
      assert a + b == b;
    } else {
      assert (a + b)[1..] == a[1..] + b;
      BundleAppend(a[1..], b);
    }
  }

  lemma BundleSplit(s: seq<string>, i: nat, k: nat, j: nat)
    requires i <= k <= j <= |s|
    ensures Bundle(s[i..j]) == Bundle(s[i..k]) + Bundle(s[k..j])
  {
    assert s[i..j] == s[i..k] + s[k..j];
    BundleAppend(s[i..k], s[k..j]);
  }

  lemma BundleHead(s: seq<string>, i: nat, j: nat)
    requires i < j <= |s|
    ensures Bundle(s[i..j]) == s[i] + "\n" + Bundle(s[i + 1..j])
  {
    assert s[i..j][0] == s[i] && s[i..j][1..] == s[i + 1..j];
  }

  lemma {:induction false} TrimLeftSplit(x: string)
    ensures var cut := |x| - |TrimLeft(x)|;
            cut >= 0 && x[cut..] == TrimLeft(x) && forall k | 0 <= k < cut :: IsSpace(x[k])
  {
    if x != "" && IsSpace(x[0]) {
      TrimLeftSplit(x[1..]);
    }
  }

  lemma {:induction false} TrimRightSplit(x: string)
    ensures TrimRight(x) <= x && forall k | |TrimRight(x)| <= k < |x| :: IsSpace(x[k])
    ensures TrimRight(x) != "" ==> !IsSpace(TrimRight(x)[|TrimRight(x)| - 1])
  {
    if x != "" && IsSpace(x[|x| - 1]) {
      TrimRightSplit(x[..|x| - 1]);
    }
  }

  /** Where the trimmed text stands in the whole one. */
  lemma TrimSplitAt(x: string) returns (cut: nat)
    ensures cut + |Trim(x)| <= |x| && x[cut..cut + |Trim(x)|] == Trim(x)
    ensures forall k | 0 <= k < cut || cut + |Trim(x)| <= k < |x| :: IsSpace(x[k])
    ensures Trim(x) != "" ==> !IsSpace(Trim(x)[|Trim(x)| - 1])
  {
    TrimLeftSplit(x);
    cut := |x| - |TrimLeft(x)|;
    TrimRightSplit(TrimLeft(x));
  }

  lemma TrimOneLine(x: string)
    requires OneLine(x)
    ensures OneLine(Trim(x))
  {
    var cut := TrimSplitAt(x);
  }

  lemma VisibleTrim(u: string, v: string)
    requires Visible(u) && Visible(v)
    ensures u <= Trim(u + v)
  {
    TrimRightKeeps(u, v);
    assert (u + v)[0] == u[0];
  }

  lemma TrimVisiblePrefix(x: string)
    requires Visible(x)
    ensures Trim(x) <= x
  {
    TrimPrefix(x);
  }

  // ----- Solid lines ----------------------------------------------------------

  /** The lines without the blank ones at the end, and without the blanks that end the
      last one left. */
  function Solid(lines: seq<string>): seq<string> {
    if lines == [] then []
    else
      var init, last := lines[..|lines| - 1], lines[|lines| - 1];
      if TrimRight(last) == "" then Solid(init) else init + [TrimRight(last)]
  }

  /** Where solid lines come from. */
  lemma {:induction false} SolidMeaning(lines: seq<string>)
    ensures |Solid(lines)| <= |lines|
    ensures forall k | 0 <= k < |Solid(lines)| - 1 :: Solid(lines)[k] == lines[k]
    ensures var n := |Solid(lines)|; n > 0 ==> Solid(lines)[n - 1] == TrimRight(lines[n - 1]) != ""
    ensures forall k | 0 <= k < |lines| && TrimRight(lines[k]) != "" :: k < |Solid(lines)|
  {
    if lines != [] && TrimRight(lines[|lines| - 1]) == "" {
      SolidMeaning(lines[..|lines| - 1]);
    }
  }

  lemma {:induction false} TrimRightBlank(u: string, v: string)
    requires TrimRight(v) == ""
    ensures TrimRight(u + v) == TrimRight(u)
    decreases |v|
  {
    if v == "" {
      assert u + v == u;
    } else {
      assert (u + v)[..|u + v| - 1] == u + v[..|v| - 1];
      TrimRightBlank(u, v[..|v| - 1]);
    }
  }

  lemma {:induction false} TrimRightPlus(u: string, v: string)
    requires TrimRight(v) != ""
    ensures TrimRight(u + v) == u + TrimRight(v)
    decreases |v|
  {
    if IsSpace(v[|v| - 1]) {
      assert (u + v)[..|u + v| - 1] == u + v[..|v| - 1];
      TrimRightPlus(u, v[..|v| - 1]);
    } else {
      assert (u + v)[|u + v| - 1] == v[|v| - 1];
    }
  }

  lemma VisibleSolid(line: string)
    requires Visible(line)
    ensures TrimRight(line) != ""
  {
    TrimRightKeeps(line[..0], line);
    assert line[..0] + line == line;
  }

  lemma BundleLast(init: seq<string>, last: string)
    ensures Bundle(init + [last]) == Bundle(init) + last + "\n"
  {
    BundleAppend(init, [last]);
    assert Bundle([last]) == last + "\n" + Bundle([]);
    assert Bundle(init) + (last + "\n") == Bundle(init) + last + "\n";
  }

  lemma {:induction false} JoinLast(init: seq<string>, last: string)
    ensures Join(init + [last]) == Bundle(init) + last
  {
    if init == [] {
      assert init + [last] == [last];
    } else {
      JoinLast(init[1..], last);
      assert (init + [last])[1..] == init[1..] + [last];
      assert (init[0] + "\n" + Bundle(init[1..])) + last == init[0] + "\n" + (Bundle(init[1..]) + last);
    }
  }

  lemma VisibleBundle(lines: seq<string>)
    requires lines != [] && Visible(lines[0])
    ensures Visible(Bundle(lines)) && Bundle(lines)[0] == lines[0][0]
  {
  }

  lemma TrimLeftVisible(x: string)
    requires Visible(x)
    ensures Trim(x) == TrimRight(x)
  {
  }

  /** The trimmed text of lines is the text of their solid lines. */
  lemma {:induction false} TrimIsSolid(lines: seq<string>)
    requires lines != [] && Visible(lines[0])
    ensures Solid(lines) != [] && Trim(Bundle(lines)) == Join(Solid(lines))
  {
    var init, last := lines[..|lines| - 1], lines[|lines| - 1];
    assert lines == init + [last];
    BundleLast(init, last);
    TrimNewline(Bundle(init) + last);
    VisibleBundle(lines);
    assert Visible(Bundle(init) + last) by {
      if init != [] { VisibleBundle(init); } else { assert Bundle(init) + last == last; }
    }
    TrimLeftVisible(Bundle(init) + last);
    if TrimRight(last) == "" {
      if init == [] { VisibleSolid(last); }
      TrimRightBlank(Bundle(init), last);
      VisibleBundle(init);
      TrimLeftVisible(Bundle(init));
      TrimIsSolid(init);
    } else {
      TrimRightPlus(Bundle(init), last);
      JoinLast(init, TrimRight(last));
    }
  }

  /** The first line of a joined text, and what is behind it. */
  lemma SameFirst(a: string, x: string, b: string, y: string)
    requires OneLine(a) && OneLine(b) && a + "\n" + x == b + "\n" + y
    ensures a == b && x == y
  {
    var t := a + "\n" + x;
    assert t[|a|] == '\n' && t[|b|] == '\n';
    assert forall k | 0 <= k < |a| :: t[k] == a[k];
    assert forall k | 0 <= k < |b| :: t[k] == b[k];
    assert |a| == |b|;
    assert a == t[..|a|] && b == t[..|b|];
    assert x == t[|a| + 1..] && y == t[|b| + 1..];
  }

  lemma SeveralLines(u: seq<string>)
    ensures |u| > 1 ==> !OneLine(Join(u))
  {
    if |u| > 1 {
      assert Join(u)[|u[0]|] == '\n';
    }
  }

  lemma {:induction false} JoinInjective(u: seq<string>, v: seq<string>)
    requires u != [] && v != [] && Lined(u) && Lined(v) && Join(u) == Join(v)
    ensures u == v
  {
    SeveralLines(u);
    SeveralLines(v);
    if |u| > 1 && |v| > 1 {
      SameFirst(u[0], Join(u[1..]), v[0], Join(v[1..]));
      JoinInjective(u[1..], v[1..]);
      assert u == [u[0]] + u[1..] && v == [v[0]] + v[1..];
    }
  }

  lemma SolidLined(lines: seq<string>)
    requires Lined(lines)
    ensures Lined(Solid(lines))
  {
    SolidMeaning(lines);
    var n := |Solid(lines)|;
    if n > 0 {
      TrimPrefix(lines[n - 1]);
    }
  }

  /** Two lists of single lines that begin visibly have the same trimmed text exactly if
      their solid lines are the same. */
  lemma SameTextIff(u: seq<string>, v: seq<string>)
    requires Lined(u) && Lined(v) && u != [] && v != [] && Visible(u[0]) && Visible(v[0])
    ensures Trim(Bundle(u)) == Trim(Bundle(v)) <==> Solid(u) == Solid(v)
  {
    TrimIsSolid(u);
    TrimIsSolid(v);
    SolidLined(u);
    SolidLined(v);
    if Trim(Bundle(u)) == Trim(Bundle(v)) {
      JoinInjective(Solid(u), Solid(v));
    }
  }
}
