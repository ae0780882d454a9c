/** The resolution of device-mapper chains (legacy/gui/src/DeviceInventory.cpp, 713-738)
    over all orders of the rows: the hop bound is exact. */
module DmChainOrders {
  import opened Outcomes
  import opened DmChains
  import opened Lists

  // ----- Chains of any length -------------------------------------------------

  /** No resolved parent has a further backing device. */
  ghost predicate FullyResolved(rows: seq<Row>, devices: Devices, now: seq<Row>) {
    && |now| == |rows|
    && forall j | 0 <= j < |rows| && rows[j].mapper && rows[j].parent != "" :: Link(devices, now[j].parent).None?
  }

  /** While nothing is resolved yet, chasing takes exactly that many links. */
  lemma {:induction false} FirstChase(rows: seq<Row>, devices: Devices, parent: string, hops: nat)
    requires Describes(rows, devices)
    ensures Chase(rows, Index(rows), parent, hops) == Walk(devices, parent, hops)
    decreases hops
  {
    if hops > 0 && Link(devices, parent).Some? {
      FirstChase(rows, devices, Link(devices, parent).value, hops - 1);
    }
  }

  lemma {:induction false} FirstRowKept(rows: seq<Row>, index: map<string, nat>, n: nat, i: nat)
    requires 0 < i <= |rows|
    ensures Resolved(rows, index, n, i)[0] == Resolved(rows, index, n, 1)[0]
  {
    if i > 1 {
      FirstRowKept(rows, index, n, i - 1);
    }
  }

  lemma SameRows(rows: seq<Row>, order: seq<Row>, devices: Devices, n: nat)
    requires multiset(order) == multiset(rows) && Describes(rows, devices)
    ensures Describes(order, devices)
    ensures Short(rows, devices, n) ==> Short(order, devices, n)
  {
    SameKeys(rows, order);
    SameKeys(order, rows);
    forall i | 0 <= i < |order| ensures exists k | 0 <= k < |rows| :: rows[k] == order[i] {
      assert order[i] in multiset(order);
      assert order[i] in rows;
    }
  }

  lemma SameKeys(rows: seq<Row>, order: seq<Row>)
    requires multiset(order) == multiset(rows)
    ensures Index(rows).Keys <= Index(order).Keys
  {
    forall x | x in Index(rows) ensures x in Index(order) {
      var row := rows[Index(rows)[x]];
      assert row in multiset(rows);
      assert row in order;
    }
  }

  /** A long chain whose row comes first is left unresolved. */
  lemma LongChainFirst(order: seq<Row>, devices: Devices, n: nat)
    requires Describes(order, devices) && order != []
    requires order[0].mapper && order[0].parent != "" && !EndsWithin(devices, order[0].parent, n)
    ensures !FullyResolved(order, devices, Resolved(order, Index(order), n, |order|))
  {
    FirstRowKept(order, Index(order), n, |order|);
    FirstChase(order, devices, order[0].parent, n);
    assert Resolved(order, Index(order), n, 1) == ResolveRow(Resolved(order, Index(order), n, 0), Index(order), n, 0);
    WalkEnds(devices, order[0].parent, n);
  }

  lemma ShortResolvesOrder(rows: seq<Row>, order: seq<Row>, devices: Devices, n: nat)
    requires Describes(rows, devices) && Short(rows, devices, n)
    requires multiset(order) == multiset(rows)
    ensures FullyResolved(order, devices, Resolved(order, Index(order), n, |order|))
  {
    SameRows(rows, order, devices, n);
    ShortChainsHalfWay(order, devices, n, |order|);
    forall j | 0 <= j < |order| && order[j].mapper && order[j].parent != ""
      ensures Link(devices, Ended(devices, order[j], n).parent).None?
    {
      WalkEnds(devices, order[j].parent, n);
    }
  }

  lemma SomeOrderFails(rows: seq<Row>, devices: Devices, n: nat) returns (order: seq<Row>)
    requires Describes(rows, devices) && !Short(rows, devices, n)
    ensures multiset(order) == multiset(rows)
    ensures !FullyResolved(order, devices, Resolved(order, Index(order), n, |order|))
  {
    var i :| 0 <= i < |rows| && rows[i].mapper && rows[i].parent != ""
             && !EndsWithin(devices, rows[i].parent, n);
    order := [rows[i]] + (rows[..i] + rows[i + 1..]);
    assert rows == rows[..i] + [rows[i]] + rows[i + 1..];
    SameRows(rows, order, devices, n);
    LongChainFirst(order, devices, n);
  }

  /** The bound is exact.  The resolution finds the backing device of every mapper
      row in every order of the rows if and only if all chains are short: a longer
      one fails when its own row comes first, and so does a cycle. */
  lemma ResolvedInEveryOrderIff(rows: seq<Row>, devices: Devices, n: nat)
    requires Describes(rows, devices)
    ensures Short(rows, devices, n)
            <==> forall order: seq<Row> | multiset(order) == multiset(rows) ::
                   FullyResolved(order, devices, Resolved(order, Index(order), n, |order|))
  {
    if Short(rows, devices, n) {
      forall order: seq<Row> | multiset(order) == multiset(rows)
        ensures FullyResolved(order, devices, Resolved(order, Index(order), n, |order|))
      {
        ShortResolvesOrder(rows, order, devices, n);
      }
    } else {
      var order := SomeOrderFails(rows, devices, n);
    }
  }

  // ----- One order of the rows ------------------------------------------------

  /** From x, n looks reach the end of the chain when the rows before i are resolved: a
      name whose row stands before i leads to the end at once. */
  predicate Reaches(devices: Devices, index: map<string, nat>, i: nat, x: string, n: nat)
    decreases n
  {
    match Link(devices, x)
    case None => true
    case Some(next) => n > 0 && ((x in index && index[x] < i) || Reaches(devices, index, i, next, n - 1))
  }

  /** Row i is resolved when its turn comes. */
  predicate InReach(rows: seq<Row>, devices: Devices, n: nat, i: nat)
    requires i < |rows|
  {
    rows[i].mapper && rows[i].parent != "" ==> Reaches(devices, Index(rows), i, rows[i].parent, n)
  }

  /** The end of the chain from x. */
  ghost predicate IsEnd(devices: Devices, x: string, end: string) {
    exists k: nat :: EndsWithin(devices, x, k) && end == Walk(devices, x, k)
  }

  lemma EndMeaning(devices: Devices, x: string, end: string)
    requires IsEnd(devices, x, end)
    ensures Link(devices, end).None? && (x != "" ==> end != "")
    ensures Link(devices, x).None? ==> end == x
  {
    var k: nat :| EndsWithin(devices, x, k) && end == Walk(devices, x, k);
    WalkEnds(devices, x, k);
  }

  lemma EndOfNone(devices: Devices, x: string)
    requires Link(devices, x).None?
    ensures IsEnd(devices, x, x)
  {
    assert EndsWithin(devices, x, 0) && Walk(devices, x, 0) == x;
  }

  lemma EndBefore(devices: Devices, x: string, next: string, end: string)
    requires Link(devices, x) == Some(next) && IsEnd(devices, next, end)
    ensures IsEnd(devices, x, end)
  {
    var k: nat :| EndsWithin(devices, next, k) && end == Walk(devices, next, k);
    assert EndsWithin(devices, x, k + 1) && Walk(devices, x, k + 1) == end;
  }

  /** Rows [0, i) hold the ends of their chains, the rest are as read. */
  ghost predicate ResolvedTo(rows: seq<Row>, devices: Devices, i: nat, now: seq<Row>) {
    |now| == |rows| && forall j | 0 <= j < |rows| :: RowResolved(rows[j], devices, j < i, now[j])
  }

  ghost predicate RowResolved(row: Row, devices: Devices, done: bool, now: Row) {
    if done && row.mapper && row.parent != "" then
      now == row.(parent := now.parent) && IsEnd(devices, row.parent, now.parent)
    else now == row
  }

  /** What the row of a device holds. */
  lemma RowOf(rows: seq<Row>, devices: Devices, i: nat, now: seq<Row>, x: string)
    requires Describes(rows, devices) && ResolvedTo(rows, devices, i, now) && x in Index(rows)
    ensures Index(rows)[x] < |now|
    ensures var parent := now[Index(rows)[x]].parent;
            match Link(devices, x)
            case None => parent == "" || parent == x
            case Some(next) =>
              if Index(rows)[x] < i then IsEnd(devices, next, parent) && parent != "" && parent != x
              else parent == next
  {
    var r := Index(rows)[x];
    assert RowResolved(rows[r], devices, r < i, now[r]);
    if r < i && rows[r].parent != "" {
      EndMeaning(devices, rows[r].parent, now[r].parent);
    }
  }

  lemma {:induction false} ReachedEnd(rows: seq<Row>, devices: Devices, i: nat, now: seq<Row>, x: string, hops: nat)
    requires Describes(rows, devices) && ResolvedTo(rows, devices, i, now)
    requires Reaches(devices, Index(rows), i, x, hops)
    ensures IsEnd(devices, x, Chase(now, Index(rows), x, hops))
    decreases hops
  {
    if x in Index(rows) {
      RowOf(rows, devices, i, now, x);
    }
    match Link(devices, x)
    case None => EndOfNone(devices, x);
    case Some(direct) =>
      var next := now[Index(rows)[x]].parent;
      if Index(rows)[x] < i {
        EndMeaning(devices, direct, next);
        ReachedEnd(rows, devices, i, now, next, hops - 1);
        EndMeaning(devices, next, Chase(now, Index(rows), next, hops - 1));
        EndBefore(devices, x, direct, next);
      } else {
        ReachedEnd(rows, devices, i, now, direct, hops - 1);
        EndBefore(devices, x, direct, Chase(now, Index(rows), direct, hops - 1));
      }
  }

  lemma {:induction false} OutOfReach(rows: seq<Row>, devices: Devices, i: nat, now: seq<Row>, x: string, hops: nat)
    requires Describes(rows, devices) && ResolvedTo(rows, devices, i, now)
    requires !Reaches(devices, Index(rows), i, x, hops)
    ensures Link(devices, Chase(now, Index(rows), x, hops)).Some?
    decreases hops
  {
    RowOf(rows, devices, i, now, x);
    if hops > 0 {
      OutOfReach(rows, devices, i, now, Link(devices, x).value, hops - 1);
    }
  }

  lemma OneMoreResolved(rows: seq<Row>, devices: Devices, i: nat, now: seq<Row>, row: Row)
    requires ResolvedTo(rows, devices, i, now) && i < |rows| && RowResolved(rows[i], devices, true, row)
    ensures ResolvedTo(rows, devices, i + 1, now[i := row])
  {
    var after := now[i := row];
    forall j | 0 <= j < |rows| ensures RowResolved(rows[j], devices, j < i + 1, after[j]) {
      assert RowResolved(rows[j], devices, j < i, now[j]);
    }
  }

  lemma ReachedRow(rows: seq<Row>, devices: Devices, n: nat, i: nat, now: seq<Row>)
    requires Describes(rows, devices) && i < |rows| && InReach(rows, devices, n, i)
    requires ResolvedTo(rows, devices, i, now)
    ensures ResolvedTo(rows, devices, i + 1, ResolveRow(now, Index(rows), n, i))
  {
    var row := rows[i];
    assert RowResolved(row, devices, false, now[i]);
    if row.mapper && row.parent != "" {
      var end := Chase(now, Index(rows), row.parent, n);
      ReachedEnd(rows, devices, i, now, row.parent, n);
      OneMoreResolved(rows, devices, i, now, row.(parent := end));
    } else {
      OneMoreResolved(rows, devices, i, now, row);
      assert now[i := row] == now;
    }
  }

  lemma {:induction false} ReachedRows(rows: seq<Row>, devices: Devices, n: nat, i: nat)
    requires Describes(rows, devices) && i <= |rows| && forall j | 0 <= j < i :: InReach(rows, devices, n, j)
    ensures ResolvedTo(rows, devices, i, Resolved(rows, Index(rows), n, i))
  {
    if i > 0 {
      ReachedRows(rows, devices, n, i - 1);
      assert InReach(rows, devices, n, i - 1);
      ReachedRow(rows, devices, n, i - 1, Resolved(rows, Index(rows), n, i - 1));
    }
  }

  lemma {:induction false} RowKept(rows: seq<Row>, index: map<string, nat>, n: nat, j: nat, i: nat)
    requires j < i <= |rows|
    ensures Resolved(rows, index, n, i)[j] == Resolved(rows, index, n, j + 1)[j]
  {
    if i > j + 1 {
      RowKept(rows, index, n, j, i - 1);
    }
  }

  lemma {:induction false} FirstOutOfReach(rows: seq<Row>, devices: Devices, n: nat, i: nat) returns (j: nat)
    requires i < |rows| && !InReach(rows, devices, n, i)
    ensures j <= i && !InReach(rows, devices, n, j) && forall k | 0 <= k < j :: InReach(rows, devices, n, k)
  {
    if k :| 0 <= k < i && !InReach(rows, devices, n, k) {
      j := FirstOutOfReach(rows, devices, n, k);
    } else {
      j := i;
    }
  }

  lemma LeftUnresolved(rows: seq<Row>, devices: Devices, n: nat, j: nat)
    requires Describes(rows, devices) && j < |rows| && !InReach(rows, devices, n, j)
    requires forall k | 0 <= k < j :: InReach(rows, devices, n, k)
    ensures !FullyResolved(rows, devices, Resolved(rows, Index(rows), n, |rows|))
  {
    ReachedRows(rows, devices, n, j);
    var now := Resolved(rows, Index(rows), n, j);
    assert RowResolved(rows[j], devices, false, now[j]);
    OutOfReach(rows, devices, j, now, rows[j].parent, n);
    assert Resolved(rows, Index(rows), n, j + 1) == ResolveRow(now, Index(rows), n, j);
    RowKept(rows, Index(rows), n, j, |rows|);
  }

  /** For a given order of the rows: the resolution finds the backing device of every
      mapper row if and only if every chain, from the parent of its row on, reaches its end
      or a device whose row stands earlier, within the bound. */
  lemma ResolvedInOrderIff(rows: seq<Row>, devices: Devices, n: nat)
    requires Describes(rows, devices)
    ensures FullyResolved(rows, devices, Resolved(rows, Index(rows), n, |rows|))
            <==> forall i | 0 <= i < |rows| :: InReach(rows, devices, n, i)
  {
    if i :| 0 <= i < |rows| && !InReach(rows, devices, n, i) {
      var j := FirstOutOfReach(rows, devices, n, i);
      LeftUnresolved(rows, devices, n, j);
    } else {
      ReachedRows(rows, devices, n, |rows|);
      var now := Resolved(rows, Index(rows), n, |rows|);
      forall j | 0 <= j < |rows| && rows[j].mapper && rows[j].parent != ""
        ensures Link(devices, now[j].parent).None?
      {
        assert RowResolved(rows[j], devices, true, now[j]);
        EndMeaning(devices, rows[j].parent, now[j].parent);
      }
    }
  }

  // ----- One long chain -------------------------------------------------------

  /** Mapper rows in which each name is backed by the next one. */
  function ChainRows(names: seq<string>): (rows: seq<Row>)
    requires names != []
    ensures |rows| == |names| - 1
  {
    seq(|names| - 1, i requires 0 <= i < |names| - 1 => Row(names[i], true, names[i], names[i + 1]))
  }

  function ChainDevices(names: seq<string>): Devices
    requires names != []
  {
    var init := names[..|names| - 1];
    map x | x in init :: NextName(names, FirstIndex(init, x))
  }

  function NextName(names: seq<string>, i: nat): string {
    if i + 1 < |names| then names[i + 1] else ""
  }

  lemma {:induction false} FirstIndexOnly(names: seq<string>, i: nat)
    requires NoRepeats(names) && i < |names|
    ensures FirstIndex(names, names[i]) == i
  {
    var init := names[..|names| - 1];
    if i < |init| {
      assert names[i] == init[i];
      FirstIndexOnly(init, i);
    }
  }

  lemma ChainLink(names: seq<string>, i: nat)
    requires NoRepeats(names) && i + 1 < |names| && forall name | name in names :: name != ""
    ensures names[i] in ChainDevices(names) && ChainDevices(names)[names[i]] == names[i + 1]
    ensures Link(ChainDevices(names), names[i]) == Some(names[i + 1])
  {
    var init := names[..|names| - 1];
    assert names[i] == init[i] && names[i + 1] in names;
    FirstIndexOnly(init, i);
  }

  lemma ChainKey(names: seq<string>, x: string)
    requires NoRepeats(names) && names != [] && forall name | name in names :: name != ""
    ensures x in ChainDevices(names) <==> x in Index(ChainRows(names))
  {
    var rows := ChainRows(names);
    if x in ChainDevices(names) {
      var i :| 0 <= i < |names| - 1 && names[i] == x;
      assert names[i] in names;
      assert IsDevice(rows[i]) && rows[i].kernelName == x;
    }
    if x in Index(rows) {
      ChainLink(names, Index(rows)[x]);
    }
  }

  lemma ChainKeys(names: seq<string>)
    requires NoRepeats(names) && names != [] && forall name | name in names :: name != ""
    ensures ChainDevices(names).Keys == Index(ChainRows(names)).Keys
  {
    forall x ensures x in ChainDevices(names) <==> x in Index(ChainRows(names)) {
      ChainKey(names, x);
    }
  }

  lemma ChainParents(names: seq<string>)
    requires NoRepeats(names) && names != [] && forall name | name in names :: name != ""
    ensures forall i | 0 <= i < |ChainRows(names)| ::
              && ChainRows(names)[i].kernelName in ChainDevices(names)
              && ChainDevices(names)[ChainRows(names)[i].kernelName] == ChainRows(names)[i].parent
  {
    forall i | 0 <= i < |ChainRows(names)|
      ensures ChainRows(names)[i].kernelName in ChainDevices(names)
      ensures ChainDevices(names)[ChainRows(names)[i].kernelName] == ChainRows(names)[i].parent
    {
      ChainLink(names, i);
    }
  }

  lemma ChainDescribed(names: seq<string>)
    requires NoRepeats(names) && names != [] && forall name | name in names :: name != ""
    ensures Describes(ChainRows(names), ChainDevices(names))
  {
    ChainKeys(names);
    ChainParents(names);
  }

  lemma {:induction false} ChainIsLong(names: seq<string>, i: nat, n: nat)
    requires NoRepeats(names) && i + n + 1 < |names| && forall name | name in names :: name != ""
    ensures !EndsWithin(ChainDevices(names), names[i], n)
    decreases n
  {
    ChainLink(names, i);
    if n > 0 {
      ChainIsLong(names, i + 1, n - 1);
    }
  }

  /** The names "a" to "k". */
  function ElevenNames(): seq<string> {
    seq(11, i requires 0 <= i < 11 => [('a' as int + i) as char])
  }

  /** A chain of ten devices whose rows stand in its order: the first one is left at a
      device that has a further backing device. */
  lemma LongChainExample()
    ensures var rows, devices := ChainRows(ElevenNames()), ChainDevices(ElevenNames());
            && |rows| == 10 && Describes(rows, devices)
            && !FullyResolved(rows, devices, Resolved(rows, Index(rows), MAX_HOPS, |rows|))
  {
    var names := ElevenNames();
    forall i, j | 0 <= i < j < 11 ensures names[i] != names[j] {
      assert names[i][0] == ('a' as int + i) as char && names[j][0] == ('a' as int + j) as char;
    }
    ChainDescribed(names);
    ChainIsLong(names, 1, MAX_HOPS);
    LongChainFirst(ChainRows(names), ChainDevices(names), MAX_HOPS);
  }
}
