/** The device-mapper chains of legacy/gui/src/DeviceInventory.cpp: a mapper row
    names only its immediate backing device, and buildDeviceRows resolves the
    chain in place, so later rows read parents that are already resolved. */
module DmChains {
  import opened Outcomes

  datatype Row = Row(path: string, mapper: bool, kernelName: string, parent: string)

  // How many parents a row's own parent is followed through.
  const MAX_HOPS := 8

  /** The original relation: each mapper device and its backing device, "" for
      none. */
  type Devices = map<string, string>

  predicate IsDevice(row: Row) { row.mapper && row.kernelName != "" }

  /** One link of the chain, if the name has one. */
  function Link(devices: Devices, x: string): Option<string> {
    if x in devices && devices[x] != "" && devices[x] != x then Some(devices[x]) else None
  }

  /** The name reached after at most n links. */
  function Walk(devices: Devices, x: string, n: nat): string
    decreases n
  {
    if n == 0 || Link(devices, x).None? then x else Walk(devices, Link(devices, x).value, n - 1)
  }

  predicate EndsWithin(devices: Devices, x: string, n: nat)
    decreases n
  {
    Link(devices, x).None? || (n > 0 && EndsWithin(devices, Link(devices, x).value, n - 1))
  }

  /** A chain ends within n links exactly when n links reach its end. */
  lemma {:induction false} WalkEnds(devices: Devices, x: string, n: nat)
    ensures EndsWithin(devices, x, n) <==> Link(devices, Walk(devices, x, n)).None?
    ensures x != "" ==> Walk(devices, x, n) != ""
    decreases n
  {
    if n > 0 && Link(devices, x).Some? {
      WalkEnds(devices, Link(devices, x).value, n - 1);
    }
  }

  /** The end of a chain is the end of the chain from any later name on it. */
  lemma {:induction false} WalkFurther(devices: Devices, x: string, m: nat, n: nat)
    requires EndsWithin(devices, x, m) && m <= n
    ensures EndsWithin(devices, x, n) && Walk(devices, x, n) == Walk(devices, x, m)
    decreases m
  {
    if Link(devices, x).Some? {
      WalkFurther(devices, Link(devices, x).value, m - 1, n - 1);
    }
  }

  // ----- The resolution as a function -----------------------------------------

  /** For each kernel name the last mapper row that carries it. */
  function Index(rows: seq<Row>): (r: map<string, nat>)
    ensures forall x | x in r :: r[x] < |rows| && IsDevice(rows[r[x]]) && rows[r[x]].kernelName == x
    ensures forall i | 0 <= i < |rows| && IsDevice(rows[i]) :: rows[i].kernelName in r
  {
    if rows == [] then map[]
    else
      var last := |rows| - 1;
      var before := Index(rows[..last]);
      if IsDevice(rows[last]) then before[rows[last].kernelName := last] else before
  }

  /** The relation holds the mapper devices of the rows, and rows of one device agree on
      its backing device, as they do when both are read from the one attribute of the
      device. */
  ghost predicate Describes(rows: seq<Row>, devices: Devices) {
    && devices.Keys == Index(rows).Keys
    && forall i | 0 <= i < |rows| && IsDevice(rows[i]) ::
         rows[i].kernelName in devices && devices[rows[i].kernelName] == rows[i].parent
  }

  /** Follows the parents the rows hold now. */
  function Chase(rows: seq<Row>, index: map<string, nat>, parent: string, hops: nat): string
    decreases hops
  {
    if hops == 0 || parent !in index || index[parent] >= |rows| then parent
    else
      var next := rows[index[parent]].parent;
      if next == "" || next == parent then parent else Chase(rows, index, next, hops - 1)
  }

  function ResolveRow(rows: seq<Row>, index: map<string, nat>, hops: nat, i: nat): (r: seq<Row>)
    requires i < |rows|
    ensures |r| == |rows|
  {
    if !rows[i].mapper || rows[i].parent == "" then rows
    else rows[i := rows[i].(parent := Chase(rows, index, rows[i].parent, hops))]
  }

  /** The rows once rows [0, i) have been resolved. */
  function Resolved(rows: seq<Row>, index: map<string, nat>, hops: nat, i: nat): (r: seq<Row>)
    requires i <= |rows|
    ensures |r| == |rows|
  {
    if i == 0 then rows else ResolveRow(Resolved(rows, index, hops, i - 1), index, hops, i - 1)
  }

  // ----- The method -----------------------------------------------------------

  method ResolveChains(rows: array<Row>)
    modifies rows
    ensures rows[..] == Resolved(old(rows[..]), Index(old(rows[..])), MAX_HOPS, rows.Length)
  {
    ghost var was := rows[..];
    var rowByKernelName: map<string, nat> := map[];
    for i := 0 to rows.Length
      invariant rows[..] == was
      invariant rowByKernelName == Index(was[..i])
    {
      assert was[..i + 1][..i] == was[..i];
      if rows[i].mapper && rows[i].kernelName != "" {
        rowByKernelName := rowByKernelName[rows[i].kernelName := i];
      }
    }
    assert was[..rows.Length] == was;
    for i := 0 to rows.Length
      invariant rows[..] == Resolved(was, rowByKernelName, MAX_HOPS, i)
    {
      if !rows[i].mapper || rows[i].parent == "" {
        continue;
      }
      ghost var now := rows[..];
      var parent := rows[i].parent;
      var depth := 0;
      while depth < 8
        invariant 0 <= depth <= MAX_HOPS
        invariant rows[..] == now
        invariant Chase(now, rowByKernelName, now[i].parent, MAX_HOPS)
                  == Chase(now, rowByKernelName, parent, MAX_HOPS - depth)
      {
        if parent !in rowByKernelName
           || rows[rowByKernelName[parent]].parent == ""
           || rows[rowByKernelName[parent]].parent == parent {
          break;
        }
        parent := rows[rowByKernelName[parent]].parent;
        depth := depth + 1;
      }
      assert parent == Chase(now, rowByKernelName, now[i].parent, MAX_HOPS);
      rows[i] := rows[i].(parent := parent);
      assert rows[..] == ResolveRow(now, rowByKernelName, MAX_HOPS, i);
    }
  }

  // ----- Chains that are short enough -----------------------------------------

  /** Every chain reaches its end within n + 1 links of its row: the row's own parent
      and n more.  The resolution uses n = MAX_HOPS. */
  ghost predicate Short(rows: seq<Row>, devices: Devices, n: nat) {
    forall i | 0 <= i < |rows| && rows[i].mapper && rows[i].parent != "" ::
      EndsWithin(devices, rows[i].parent, n)
  }

  /** What a row becomes: its parent is the end of its chain in the original
      relation. */
  function Ended(devices: Devices, row: Row, n: nat): Row {
    if row.mapper && row.parent != "" then row.(parent := Walk(devices, row.parent, n)) else row
  }

  /** Rows [0, i) are resolved to the end of their chains, the rest are as read. */
  ghost predicate HalfWay(rows: seq<Row>, devices: Devices, n: nat, i: nat, now: seq<Row>) {
    && |now| == |rows|
    && forall j | 0 <= j < |rows| :: now[j] == if j < i then Ended(devices, rows[j], n) else rows[j]
  }

  /** What one look at the row of x must find: the next link, or already the end of
      the chain behind it. */
  ghost predicate SkipsLinks(devices: Devices, n: nat, x: string, next: string) {
    match Link(devices, x)
    case None => next == "" || next == x
    case Some(direct) =>
      && next != "" && next != x
      && (next == direct || next == Walk(devices, direct, n))
      && EndsWithin(devices, direct, n)
  }

  ghost predicate AllSkipLinks(devices: Devices, n: nat, index: map<string, nat>, now: seq<Row>) {
    && (forall x | x in index :: index[x] < |now|)
    && (forall x {:trigger now[index[x]]} | x in index :: SkipsLinks(devices, n, x, now[index[x]].parent))
    && devices.Keys <= index.Keys
  }

  lemma RowSkipsLinks(rows: seq<Row>, devices: Devices, n: nat, i: nat, now: seq<Row>, j: nat)
    requires Describes(rows, devices) && Short(rows, devices, n)
    requires HalfWay(rows, devices, n, i, now)
    requires j < |rows| && IsDevice(rows[j])
    ensures SkipsLinks(devices, n, rows[j].kernelName, now[j].parent)
  {
    var direct := rows[j].parent;
    assert devices[rows[j].kernelName] == direct;
    if direct != "" {
      WalkEnds(devices, direct, n);
    }
  }

  lemma HalfWaySkipsLinks(rows: seq<Row>, devices: Devices, n: nat, i: nat, now: seq<Row>)
    requires Describes(rows, devices) && Short(rows, devices, n)
    requires HalfWay(rows, devices, n, i, now)
    ensures AllSkipLinks(devices, n, Index(rows), now)
  {
    var index := Index(rows);
    forall x | x in index ensures SkipsLinks(devices, n, x, now[index[x]].parent) {
      RowSkipsLinks(rows, devices, n, i, now, index[x]);
    }
  }

  /** Skipping to the end of a chain does not change where it ends. */
  lemma SkipAhead(devices: Devices, direct: string, next: string, m: nat, n: nat)
    requires EndsWithin(devices, direct, m) && m <= n
    requires next == direct || next == Walk(devices, direct, n)
    ensures EndsWithin(devices, next, m) && Walk(devices, next, m) == Walk(devices, direct, m)
  {
    WalkFurther(devices, direct, m, n);
    WalkEnds(devices, direct, n);
  }

  /** Chasing half-resolved rows reaches the end of the original chain: a resolved
      parent only skips links. */
  lemma {:induction false} ChaseReachesEnd(devices: Devices, n: nat, now: seq<Row>, index: map<string, nat>,
                                           parent: string, hops: nat)
    requires AllSkipLinks(devices, n, index, now)
    requires EndsWithin(devices, parent, hops) && hops <= n
    ensures Chase(now, index, parent, hops) == Walk(devices, parent, hops)
    decreases hops
  {
    if hops > 0 && parent in index {
      var next := now[index[parent]].parent;
      assert SkipsLinks(devices, n, parent, next);
      if Link(devices, parent).Some? {
        SkipAhead(devices, Link(devices, parent).value, next, hops - 1, n);
        ChaseReachesEnd(devices, n, now, index, next, hops - 1);
      }
    }
  }

  lemma {:induction false} ShortChainsHalfWay(rows: seq<Row>, devices: Devices, n: nat, i: nat)
    requires Describes(rows, devices) && Short(rows, devices, n) && i <= |rows|
    ensures HalfWay(rows, devices, n, i, Resolved(rows, Index(rows), n, i))
  {
    if i > 0 {
      ShortChainsHalfWay(rows, devices, n, i - 1);
      var now := Resolved(rows, Index(rows), n, i - 1);
      if rows[i - 1].mapper && rows[i - 1].parent != "" {
        HalfWaySkipsLinks(rows, devices, n, i - 1, now);
        ChaseReachesEnd(devices, n, now, Index(rows), rows[i - 1].parent, n);
      }
    }
  }

  /** If all chains are short, every mapper row with a parent gets the end of its own
      chain in the original relation, whatever the order of the rows, and nothing
      else changes. */
  lemma ShortChainsResolved(rows: seq<Row>, devices: Devices, n: nat)
    requires Describes(rows, devices) && Short(rows, devices, n)
    ensures Resolved(rows, Index(rows), n, |rows|)
            == seq(|rows|, j requires 0 <= j < |rows| => Ended(devices, rows[j], n))
  {
    ShortChainsHalfWay(rows, devices, n, |rows|);
  }
}
