/** The lookup of the repair map does not depend on the order of the file. */
module RepairMapOrder {
  import opened Outcomes
  import opened RepairMap

  ghost predicate DistinctKeys(rows: seq<Row>) {
    forall i, j | 0 <= i < j < |rows| :: rows[i].key != rows[j].key
  }

  /** A row the loader can produce: only ":*" keys are prefixes. */
  predicate WellMade(row: Row) {
    row.prefix <==> |row.key| >= 2 && row.key[|row.key| - 1] == '*'
  }

  // ----- What the lookup means ------------------------------------------------

  /** The exact row if there is one, otherwise the longest matching prefix row. */
  ghost predicate IsBest(rows: seq<Row>, key: string, r: Option<Row>) {
    if HasKey(rows, key) then
      r.Some? && r.value in rows && r.value.key == key
    else match r
      case None => forall row | row in rows :: !PrefixMatch(row, key)
      case Some(best) =>
        && best in rows && PrefixMatch(best, key)
        && forall row | row in rows && PrefixMatch(row, key) :: |row.key| <= |best.key|
  }

  lemma {:induction false} FirstExactMeaning(rows: seq<Row>, key: string)
    ensures FirstExact(rows, key).Some? <==> HasKey(rows, key)
    ensures FirstExact(rows, key).Some? ==>
              FirstExact(rows, key).value in rows && FirstExact(rows, key).value.key == key
  {
    if rows != [] {
      var init, last := rows[..|rows| - 1], rows[|rows| - 1];
      FirstExactMeaning(init, key);
      assert init + [last] == rows;
      HasKeyAppend(init, last);
    }
  }

  lemma {:induction false} BestPrefixMeaning(rows: seq<Row>, key: string)
    ensures match BestPrefix(rows, key)
            case None => forall row | row in rows :: !PrefixMatch(row, key)
            case Some(best) =>
              && best in rows && PrefixMatch(best, key)
              && forall row | row in rows && PrefixMatch(row, key) :: |row.key| <= |best.key|
  {
    if rows != [] {
      BestPrefixMeaning(rows[..|rows| - 1], key);
      assert forall row :: row in rows <==> row in rows[..|rows| - 1] || row == rows[|rows| - 1];
    }
  }

  lemma FindIsBest(rows: seq<Row>, key: string)
    ensures IsBest(rows, key, Find(rows, key))
  {
    FirstExactMeaning(rows, key);
    BestPrefixMeaning(rows, key);
  }

  /** Two matching prefix rows of the same length have the same key. */
  lemma SameLengthSamePrefix(a: Row, b: Row, key: string)
    requires WellMade(a) && WellMade(b) && PrefixMatch(a, key) && PrefixMatch(b, key)
    requires |a.key| == |b.key|
    ensures a.key == b.key
  {
    assert a.key == a.key[..|a.key| - 1] + ['*'];
    assert b.key == b.key[..|b.key| - 1] + ['*'];
  }

  /** With distinct keys the best row is unique, so the lookup is determined by the
      rows and not by their order. */
  lemma BestIsUnique(rows: seq<Row>, key: string, r: Option<Row>, q: Option<Row>)
    requires DistinctKeys(rows) && (forall row | row in rows :: WellMade(row))
    requires IsBest(rows, key, r) && IsBest(rows, key, q)
    ensures r == q
  {
    if r.Some? && q.Some? {
      if !HasKey(rows, key) {
        SameLengthSamePrefix(r.value, q.value, key);
      }
      var i :| 0 <= i < |rows| && rows[i] == r.value;
      var j :| 0 <= j < |rows| && rows[j] == q.value;
      assert i == j;
    }
  }

  // ----- The rows of a file ---------------------------------------------------

  function RowsOf(line: string): seq<Row> {
    match Read(line) case Data(row) => [row] case _ => []
  }

  function FlatMap<T>(f: string -> seq<T>, lines: seq<string>): seq<T> {
    if lines == [] then [] else FlatMap(f, lines[..|lines| - 1]) + f(lines[|lines| - 1])
  }

  /** The data rows of the lines, in order. */
  function AllRows(lines: seq<string>): seq<Row> {
    FlatMap(RowsOf, lines)
  }

  ghost predicate NoneBad(lines: seq<string>) {
    forall i | 0 <= i < |lines| :: !Read(lines[i]).Bad?
  }

  /** What one more line does to a load. */
  lemma OneMoreLine(init: seq<string>, last: string)
    ensures var lines, line := init + [last], Read(last);
            && Loaded(lines).fault.None? == (Loaded(init).fault.None? && !line.Bad?
                                             && (line.Data? ==> !HasKey(Loaded(init).rows, line.row.key)))
            && (Loaded(lines).fault.None? ==> Loaded(lines).rows == Loaded(init).rows + RowsOf(last))
            && (Loaded(lines).rows == Loaded(init).rows
                || (line.Data? && Loaded(lines).rows == Loaded(init).rows + [line.row]
                    && !HasKey(Loaded(init).rows, line.row.key)))
            && (NoneBad(lines) <==> NoneBad(init) && !line.Bad?)
            && AllRows(lines) == AllRows(init) + RowsOf(last)
  {
    var lines := init + [last];
    assert lines[..|lines| - 1] == init && lines[|lines| - 1] == last;
    assert forall i | 0 <= i < |init| :: lines[i] == init[i];
  }

  /** A file loads exactly when no line is bad and no key comes twice; its rows are
      then its data rows. */
  lemma {:induction false} LoadsIff(lines: seq<string>)
    ensures Loaded(lines).fault.None? <==> NoneBad(lines) && DistinctKeys(AllRows(lines))
    ensures Loaded(lines).fault.None? ==> Loaded(lines).rows == AllRows(lines)
  {
    if lines != [] {
      var init, last := lines[..|lines| - 1], lines[|lines| - 1];
      assert lines == init + [last];
      LoadsIff(init);
      OneMoreLine(init, last);
      if Read(last).Data? {
        DistinctAppend(AllRows(init), Read(last).row);
      } else {
        assert AllRows(lines) == AllRows(init);
      }
    }
  }

  lemma ReadWellMade(line: string)
    requires Read(line).Data?
    ensures WellMade(Read(line).row)
  {
  }

  lemma OneMoreRow(before: seq<Row>, row: Row, after: seq<Row>)
    requires after == before + [row] && DistinctKeys(before) && !HasKey(before, row.key)
    requires WellMade(row) && forall other | other in before :: WellMade(other)
    ensures DistinctKeys(after) && forall other | other in after :: WellMade(other)
  {
    DistinctAppend(before, row);
    assert forall other | other in after :: other in before || other == row;
  }

  /** Whatever a load keeps has distinct keys, and only ":*" keys are prefixes. */
  lemma {:induction false} RowsWellMade(lines: seq<string>)
    ensures DistinctKeys(Loaded(lines).rows)
    ensures forall row | row in Loaded(lines).rows :: WellMade(row)
  {
    if lines != [] {
      var init, last := lines[..|lines| - 1], lines[|lines| - 1];
      assert lines == init + [last];
      RowsWellMade(init);
      OneMoreLine(init, last);
      var before, after := Loaded(init).rows, Loaded(lines).rows;
      if after != before {
        ReadWellMade(last);
        OneMoreRow(before, Read(last).row, after);
      }
    }
  }

  lemma DistinctAppend(rows: seq<Row>, row: Row)
    ensures DistinctKeys(rows + [row]) <==> DistinctKeys(rows) && !HasKey(rows, row.key)
  {
    var more := rows + [row];
    assert forall i | 0 <= i < |rows| :: more[i] == rows[i];
    if DistinctKeys(more) {
      forall i, j | 0 <= i < j < |rows| ensures rows[i].key != rows[j].key {
        assert more[i].key != more[j].key;
      }
      forall i | 0 <= i < |rows| ensures rows[i].key != row.key {
        assert more[i].key != more[|rows|].key;
      }
    }
  }

  // ----- Permuted files -------------------------------------------------------

  lemma {:induction false} FlatMapWithout<T>(f: string -> seq<T>, a: seq<string>, x: string, b: seq<string>)
    ensures multiset(FlatMap(f, a + [x] + b)) == multiset(FlatMap(f, a + b)) + multiset(f(x))
    decreases |b|
  {
    var with, without := a + [x] + b, a + b;
    if b == [] {
      assert with[..|with| - 1] == a && without == a;
    } else {
      var init, last := b[..|b| - 1], b[|b| - 1];
      assert with[..|with| - 1] == a + [x] + init;
      assert without[..|without| - 1] == a + init;
      FlatMapWithout(f, a, x, init);
    }
  }

  lemma Without(b: seq<string>, x: string) returns (u: seq<string>, v: seq<string>)
    requires x in b
    ensures b == u + [x] + v
    ensures multiset(u + v) == multiset(b) - multiset{x}
  {
    var k :| 0 <= k < |b| && b[k] == x;
    u, v := b[..k], b[k + 1..];
    assert b == u + [x] + v;
  }

  lemma LastIn(a: seq<string>, init: seq<string>, x: string, b: seq<string>)
    requires a == init + [x] && multiset(a) == multiset(b)
    ensures x in b && multiset(init) + multiset{x} == multiset(b)
  {
    assert x in multiset(b);
  }

  lemma LessOne(init: seq<string>, x: string, u: seq<string>, v: seq<string>)
    requires multiset(init) + multiset{x} == multiset(u + [x] + v)
    ensures multiset(init) == multiset(u + v)
  {
    assert multiset(u + [x] + v) == multiset(u + v) + multiset{x};
    assert (multiset(init) + multiset{x}) - multiset{x} == multiset(init);
    assert (multiset(u + v) + multiset{x}) - multiset{x} == multiset(u + v);
  }

  lemma {:induction false} FlatMapPermuted<T>(f: string -> seq<T>, a: seq<string>, b: seq<string>)
    requires multiset(a) == multiset(b)
    ensures multiset(FlatMap(f, a)) == multiset(FlatMap(f, b))
    decreases |a|
  {
    if a == [] {
      assert |multiset(b)| == 0;
    } else {
      var init, x := a[..|a| - 1], a[|a| - 1];
      LastIn(a, init, x, b);
      var u, v := Without(b, x);
      LessOne(init, x, u, v);
      FlatMapPermuted(f, init, u + v);
      FlatMapWithout(f, u, x, v);
    }
  }

  /** Distinct keys show in the multiset of the rows. */
  lemma {:induction false} DistinctIffCounts(rows: seq<Row>)
    ensures DistinctKeys(rows) <==>
              && (forall row | row in rows :: multiset(rows)[row] == 1)
              && (forall row, other | row in rows && other in rows && row.key == other.key :: row == other)
  {
    if rows != [] {
      var init, last := rows[..|rows| - 1], rows[|rows| - 1];
      assert rows == init + [last];
      DistinctIffCounts(init);
      DistinctAppend(init, last);
      assert forall row :: row in rows <==> row in init || row == last;
      assert multiset(rows) == multiset(init) + multiset{last};
      assert last in init <==> multiset(init)[last] > 0;
    }
  }

  /** Reordering the lines of a file that loads gives a file that loads, with the
      same rows and the same answer to every lookup. */
  lemma OrderDoesNotMatter(lines: seq<string>, order: seq<string>, key: string)
    requires multiset(lines) == multiset(order)
    requires Loaded(lines).fault.None?
    ensures Loaded(order).fault.None?
    ensures multiset(Loaded(order).rows) == multiset(Loaded(lines).rows)
    ensures Find(Loaded(order).rows, key) == Find(Loaded(lines).rows, key)
  {
    LoadsIff(lines);
    LoadsIff(order);
    RowsWellMade(lines);
    FlatMapPermuted(RowsOf, lines, order);
    var rows, moved := AllRows(lines), AllRows(order);
    SameMembers(rows, moved);
    forall i | 0 <= i < |order| ensures !Read(order[i]).Bad? {
      assert order[i] in multiset(lines);
    }
    DistinctIffCounts(rows);
    DistinctIffCounts(moved);
    FindIsBest(rows, key);
    FindIsBest(moved, key);
    BestKept(moved, rows, key, Find(moved, key));
    BestIsUnique(rows, key, Find(rows, key), Find(moved, key));
  }

  lemma SameMembers(a: seq<Row>, b: seq<Row>)
    requires multiset(a) == multiset(b)
    ensures forall row :: row in a <==> row in b
    ensures forall row | row in a :: multiset(a)[row] == multiset(b)[row]
  {
    forall row ensures row in a <==> row in b {
      assert row in a <==> row in multiset(a);
      assert row in b <==> row in multiset(b);
    }
  }

  lemma BestKept(a: seq<Row>, b: seq<Row>, key: string, r: Option<Row>)
    requires (forall row :: row in a <==> row in b) && IsBest(a, key, r)
    ensures IsBest(b, key, r)
  {
    assert HasKey(a, key) <==> HasKey(b, key) by {
      if HasKey(a, key) { var i :| 0 <= i < |a| && a[i].key == key; assert a[i] in b; }
      if HasKey(b, key) { var i :| 0 <= i < |b| && b[i].key == key; assert b[i] in a; }
    }
  }

  // ----- Failed loads ---------------------------------------------------------

  ghost predicate AllSkip(lines: seq<string>) {
    forall i | 0 <= i < |lines| :: Read(lines[i]).Skip?
  }

  /** The first line that is neither empty nor a comment is a bad one. */
  ghost predicate FirstDataLineBad(lines: seq<string>) {
    exists i | 0 <= i < |lines| :: Read(lines[i]).Bad? && AllSkip(lines[..i])
  }

  lemma AllSkipMore(lines: seq<string>, last: string)
    ensures AllSkip(lines + [last]) <==> AllSkip(lines) && Read(last).Skip?
  {
    var more := lines + [last];
    assert more[|lines|] == last && forall i | 0 <= i < |lines| :: more[i] == lines[i];
  }

  lemma FirstBadMore(lines: seq<string>, last: string)
    ensures FirstDataLineBad(lines + [last]) <==> FirstDataLineBad(lines) || (AllSkip(lines) && Read(last).Bad?)
  {
    var more := lines + [last];
    assert more[..|lines|] == lines && more[|lines|] == last;
    if i :| 0 <= i < |more| && Read(more[i]).Bad? && AllSkip(more[..i]) {
      assert i < |lines| ==> lines[..i] == more[..i] && lines[i] == more[i];
    }
    if i :| 0 <= i < |lines| && Read(lines[i]).Bad? && AllSkip(lines[..i]) {
      assert lines[..i] == more[..i] && lines[i] == more[i];
    }
  }

  /** No row is kept exactly if every line before the first bad one is to be skipped. */
  lemma {:induction false} NoRowsIff(lines: seq<string>)
    ensures Loaded(lines).rows == [] <==> AllSkip(lines) || FirstDataLineBad(lines)
    ensures AllSkip(lines) ==> Loaded(lines).fault.None?
    ensures FirstDataLineBad(lines) ==> Loaded(lines).fault.Some?
  {
    if lines != [] {
      var init, last := lines[..|lines| - 1], lines[|lines| - 1];
      assert lines == init + [last];
      NoRowsIff(init);
      AllSkipMore(init, last);
      FirstBadMore(init, last);
      FaultLater(init);
    }
  }

  lemma {:induction false} FaultLater(lines: seq<string>)
    ensures Loaded(lines).fault.Some? && Loaded(lines).rows == [] ==> !AllSkip(lines)
  {
    if lines != [] {
      var init, last := lines[..|lines| - 1], lines[|lines| - 1];
      assert lines == init + [last];
      FaultLater(init);
      AllSkipMore(init, last);
    }
  }

  lemma EmptyAnswersNothing(rows: seq<Row>)
    ensures (forall key :: Find(rows, key) == None) <==> rows == []
  {
    if rows != [] {
      FindIsBest(rows, rows[0].key);
      assert HasKey(rows, rows[0].key);
    }
  }

  /** After a load that stopped at a fault, every lookup falls back to "unknown key" if
      and only if the first line of the file that is neither empty nor a comment is a
      bad one. */
  lemma FailedLoadIsSafeIff(lines: seq<string>)
    requires Loaded(lines).fault.Some?
    ensures (forall key :: Find(Loaded(lines).rows, key) == None) <==> FirstDataLineBad(lines)
  {
    NoRowsIff(lines);
    EmptyAnswersNothing(Loaded(lines).rows);
  }

  /** Any good row followed by any bad line is such a load. */
  lemma FailedLoadStillAnswers(good: string, bad: string)
    requires Read(good).Data? && Read(bad).Bad?
    ensures Loaded([good, bad]).fault.Some?
    ensures Find(Loaded([good, bad]).rows, Read(good).row.key) == Some(Read(good).row)
  {
    var lines := [good, bad];
    assert lines[..1] == [good];
    OneGoodLine(good);
    FindOnly(Read(good).row);
  }

  lemma OneGoodLine(good: string)
    requires Read(good).Data?
    ensures Loaded([good]) == Loading([Read(good).row], None)
  {
    var lines := [good];
    assert lines[..0] == [] && Loaded([]) == Loading([], None);
    assert [] + [Read(good).row] == [Read(good).row];
  }

  lemma FindOnly(row: Row)
    ensures Find([row], row.key) == Some(row)
  {
    var rows := [row];
    FindIsBest(rows, row.key);
    assert HasKey(rows, rows[0].key);
  }

  // ----- Keys -----------------------------------------------------------------

  ghost predicate PlainKey(key: string) {
    forall i | 0 <= i < |key| :: 'a' <= key[i] <= 'z' || '0' <= key[i] <= '9' || key[i] == '-' || key[i] == ':'
  }

  /** A row key is plain, or plain with ":*" behind it. */
  lemma RowKeyIff(key: string)
    ensures ValidRowKey(key) <==> key != "" && (PlainKey(key) || exists stem :: PlainKey(stem) && key == stem + ":*")
  {
    if ValidRowKey(key) && !PlainKey(key) {
      var n := |key| - 2;
      assert key[n + 1] == '*' && key[n] == ':';
      assert PlainKey(key[..n]) && key == key[..n] + ":*";
    }
    if stem :| PlainKey(stem) && key == stem + ":*" {
      forall i | 0 <= i < |key|
        ensures KeyChar(key[i]) || (key[i] == '*' && i + 1 == |key| && i >= 1 && key[i - 1] == ':')
      {
        if i < |stem| {
          assert key[i] == stem[i];
        }
      }
    }
  }

  /** A prefix row matches every key that goes on behind its stem, the empty rest included,
      and no other. */
  lemma PrefixIff(row: Row, stem: string, key: string)
    requires WellMade(row) && row.key == stem + "*" && stem != ""
    ensures PrefixMatch(row, key) <==> row.prefix && exists rest :: key == stem + rest
  {
    assert row.key[..|row.key| - 1] == stem;
    if stem <= key {
      assert key == stem + key[|stem|..];
    }
  }
}
