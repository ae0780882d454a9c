/** The repair -> diagnostic map of legacy/gui/src/EvidenceParser.cpp: its loader
    and its lookup. */
module RepairMap {
  import opened Outcomes
  import opened LegacyText

  datatype Row = Row(key: string, requiresSections: string, affectedSections: string, prefix: bool)

  datatype Problem = WrongColumns | InvalidKey | ReservedKey | MalformedColumn | DuplicateKey | NoRows | Unreadable

  // ----- One line -------------------------------------------------------------

  function Vocabulary(): seq<string> {
    ["environment", "backend", "package", "boot", "boot-evidence", "kernel",
     "grub", "uki", "display", "gpu", "input", "network", "errors", "usage",
     "filesystem", "fstab", "btrfs", "mapper", "luks", "report", "capabilities", "all",
     "-", "union", "shell-class"]
  }

  function ReservedKeys(): seq<string> {
    ["all", "-", "report", "capabilities", "union", "shell-class"]
  }

  predicate KeyChar(c: char) {
    'a' <= c <= 'z' || '0' <= c <= '9' || c == '-' || c == ':'
  }

  /** Lower-case letters, digits, '-' and ':'; '*' only as the trailing ":*". */
  predicate ValidRowKey(key: string) {
    && key != ""
    && forall i | 0 <= i < |key| ::
         || KeyChar(key[i])
         || (key[i] == '*' && i + 1 == |key| && i >= 1 && key[i - 1] == ':')
  }

  /** The pieces of a text that a separator cuts, empty ones included. */
  function Pieces(text: string, separates: char -> bool): (r: seq<string>)
    ensures r != []
  {
    if text == "" then [""]
    else
      var before, c := Pieces(text[..|text| - 1], separates), text[|text| - 1];
      if separates(c) then before + [""] else before[|before| - 1 := before[|before| - 1] + [c]]
  }

  function NonEmpty(pieces: seq<string>): seq<string> {
    if pieces == [] then []
    else NonEmpty(pieces[..|pieces| - 1]) + if pieces[|pieces| - 1] == "" then [] else [pieces[|pieces| - 1]]
  }

  predicate Separates(c: char) { c == ' ' || c == ',' }

  /** A column's tokens: it is cut at spaces and commas. */
  function Tokens(column: string): seq<string> {
    NonEmpty(Pieces(column, Separates))
  }

  predicate ValidColumn(column: string) {
    Tokens(column) != [] && forall i | 0 <= i < |Tokens(column)| :: Tokens(column)[i] in Vocabulary()
  }

  datatype Line = Skip | Data(row: Row) | Bad(problem: Problem)

  /** What one line of the file holds, the checks in the loader's order. */
  function Read(raw: string): Line {
    var line := Trim(raw);
    if line == "" || line[0] == '#' then Skip
    else
      var fields := Pieces(line, c => c == '\t');
      if |fields| != 3 then Bad(WrongColumns)
      else
        var key := Trim(fields[0]);
        if !ValidRowKey(key) then Bad(InvalidKey)
        else if key in ReservedKeys() then Bad(ReservedKey)
        else if !ValidColumn(Trim(fields[1])) || !ValidColumn(Trim(fields[2])) then Bad(MalformedColumn)
        else Data(Row(key, Trim(fields[1]), Trim(fields[2]), |key| >= 2 && key[|key| - 1] == '*'))
  }

  // ----- The file -------------------------------------------------------------

  datatype Fault = Fault(line: nat, problem: Problem)

  /** The rows read so far, and the first fault. */
  datatype Loading = Loading(rows: seq<Row>, fault: Option<Fault>)

  predicate HasKey(rows: seq<Row>, key: string) {
    exists i | 0 <= i < |rows| :: rows[i].key == key
  }

  function Loaded(lines: seq<string>): Loading {
    if lines == [] then Loading([], None)
    else
      var before := Loaded(lines[..|lines| - 1]);
      if before.fault.Some? then before
      else match Read(lines[|lines| - 1])
        case Skip => before
        case Bad(problem) => before.(fault := Some(Fault(|lines|, problem)))
        case Data(row) =>
          if HasKey(before.rows, row.key) then before.(fault := Some(Fault(|lines|, DuplicateKey)))
          else before.(rows := before.rows + [row])
  }

  // ----- The lookup -----------------------------------------------------------

  predicate PrefixMatch(row: Row, key: string) {
    row.prefix && |row.key| >= 2 && row.key[..|row.key| - 1] <= key
  }

  /** The scan of find over the first n rows, while no exact row was met. */
  function BestPrefix(rows: seq<Row>, key: string): Option<Row> {
    if rows == [] then None
    else
      var best, row := BestPrefix(rows[..|rows| - 1], key), rows[|rows| - 1];
      if PrefixMatch(row, key) && (best.None? || |best.value.key| < |row.key|) then Some(row) else best
  }

  function FirstExact(rows: seq<Row>, key: string): Option<Row> {
    if rows == [] then None
    else
      var first, row := FirstExact(rows[..|rows| - 1], key), rows[|rows| - 1];
      if first.None? && row.key == key then Some(row) else first
  }

  function Find(rows: seq<Row>, key: string): Option<Row> {
    if FirstExact(rows, key).Some? then FirstExact(rows, key) else BestPrefix(rows, key)
  }

  class RepairDiagnosticMap {
    var rows: seq<Row>
    var loaded: bool

    constructor ()
      ensures rows == [] && !loaded
    {
      rows, loaded := [], false;
    }

    /** load: the text is None if the file cannot be read.  A failed load keeps the
        rows it has read. */
    method Load(text: Option<string>) returns (fault: Option<Fault>)
      modifies this
      ensures loaded <==> fault.None?
      ensures text.None? ==> rows == [] && fault == Some(Fault(0, Unreadable))
      ensures text.Some? ==>
                var l := Loaded(Lines(text.value));
                && rows == l.rows
                && fault == if l.fault.Some? then l.fault
                            else if l.rows == [] then Some(Fault(0, NoRows)) else None
    {
      rows, loaded := [], false;
      if text.None? {
        return Some(Fault(0, Unreadable));
      }
      var lines := SplitLines(text.value);
      var seen: set<string> := {};
      for i := 0 to |lines|
        invariant Loaded(lines[..i]) == Loading(rows, None)
        invariant forall key :: key in seen <==> HasKey(rows, key)
        invariant !loaded
      {
        assert lines[..i + 1][..i] == lines[..i];
        match Read(lines[i]) {
          case Skip =>
          case Bad(problem) =>
            FaultStays(lines, i + 1);
            return Some(Fault(i + 1, problem));
          case Data(row) =>
            if row.key in seen {
              FaultStays(lines, i + 1);
              return Some(Fault(i + 1, DuplicateKey));
            }
            HasKeyAppend(rows, row);
            seen := seen + {row.key};
            rows := rows + [row];
        }
      }
      assert lines[..|lines|] == lines;
      if rows == [] {
        return Some(Fault(0, NoRows));
      }
      loaded := true;
      return None;
    }

    /** find. */
    method FindRow(key: string) returns (r: Option<Row>)
      ensures r == Find(rows, key)
    {
      var prefixMatch: Option<Row> := None;
      for i := 0 to |rows|
        invariant FirstExact(rows[..i], key).None?
        invariant prefixMatch == BestPrefix(rows[..i], key)
      {
        assert rows[..i + 1][..i] == rows[..i];
        var row := rows[i];
        if row.key == key {
          ExactStays(rows, i + 1, key);
          return Some(row);
        }
        if row.prefix && |row.key| >= 2 && |key| >= |row.key| - 1
           && key[..|row.key| - 1] == row.key[..|row.key| - 1] {
          if prefixMatch.None? || |prefixMatch.value.key| < |row.key| {
            prefixMatch := Some(row);
          }
        }
      }
      assert rows[..|rows|] == rows;
      return prefixMatch;
    }
  }

  lemma HasKeyAppend(rows: seq<Row>, row: Row)
    ensures forall key :: HasKey(rows + [row], key) <==> HasKey(rows, key) || key == row.key
  {
    var more := rows + [row];
    forall key ensures HasKey(more, key) <==> HasKey(rows, key) || key == row.key {
      assert more[|rows|] == row;
      if HasKey(rows, key) {
        var i :| 0 <= i < |rows| && rows[i].key == key;
        assert more[i].key == key;
      }
    }
  }

  lemma {:induction false} FaultStays(lines: seq<string>, i: nat)
    requires i <= |lines| && Loaded(lines[..i]).fault.Some?
    ensures Loaded(lines) == Loaded(lines[..i])
    decreases |lines|
  {
    if i < |lines| {
      var init := lines[..|lines| - 1];
      assert init[..i] == lines[..i];
      FaultStays(init, i);
    } else {
      assert lines[..i] == lines;
    }
  }

  lemma {:induction false} ExactStays(rows: seq<Row>, i: nat, key: string)
    requires i <= |rows| && FirstExact(rows[..i], key).Some?
    ensures FirstExact(rows, key) == FirstExact(rows[..i], key)
    decreases |rows|
  {
    if i < |rows| {
      var init := rows[..|rows| - 1];
      assert init[..i] == rows[..i];
      ExactStays(init, i, key);
    } else {
      assert rows[..i] == rows;
    }
  }
}
