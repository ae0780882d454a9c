/** Lines of the map file that legacy/gui/src/EvidenceParser.cpp (437-520) reads, and the
    two places where the loader does less than is said of it. */
module RepairLines {
  import opened Outcomes
  import opened LegacyText
  import opened RepairMap
  import opened RepairMapOrder
  import opened RepairPolicy

  /** Text that trimming and cutting at tabs leave alone. */
  predicate IsCell(text: string) {
    && text != "" && !IsBlank(text[0]) && !IsBlank(text[|text| - 1])
    && forall i | 0 <= i < |text| :: text[i] != '\t'
  }

  lemma SolidStays(text: string)
    requires text != "" && !IsBlank(text[0]) && !IsBlank(text[|text| - 1])
    ensures Trim(text) == text
  {
  }

  function MapLine(key: string, required: string, affected: string): string {
    key + ['\t'] + (required + ['\t'] + affected)
  }

  lemma CellsOfLine(key: string, required: string, affected: string)
    requires IsCell(key) && IsCell(required) && IsCell(affected)
    ensures Pieces(MapLine(key, required, affected), c => c == '\t') == [key, required, affected]
  {
    var tab := (c: char) => c == '\t';
    PiecesCut(key, '\t', required + ['\t'] + affected, tab);
    PiecesCut(required, '\t', affected, tab);
    PiecesOfWord(key, tab);
    PiecesOfWord(required, tab);
    PiecesOfWord(affected, tab);
  }

  lemma MapLineSolid(key: string, required: string, affected: string)
    requires IsCell(key) && IsCell(required) && IsCell(affected)
    ensures var line := MapLine(key, required, affected); Trim(line) == line && line != "" && line[0] == key[0]
  {
    var line := MapLine(key, required, affected);
    assert line[0] == key[0] && line[|line| - 1] == affected[|affected| - 1];
    SolidStays(line);
  }

  /** What is read of three cells between tabs hangs on the columns. */
  lemma CellsRead(key: string, required: string, affected: string)
    requires IsCell(key) && IsCell(required) && IsCell(affected) && key[0] != '#'
    requires ValidRowKey(key) && key !in ReservedKeys()
    ensures Read(MapLine(key, required, affected))
            == if ValidColumn(required) && ValidColumn(affected) then
                 Data(Row(key, required, affected, |key| >= 2 && key[|key| - 1] == '*'))
               else Bad(MalformedColumn)
  {
    MapLineSolid(key, required, affected);
    SolidStays(key);
    SolidStays(required);
    SolidStays(affected);
    CellsOfLine(key, required, affected);
  }

  /** Three cells between tabs are read as the row they spell. */
  lemma LineRead(key: string, required: string, affected: string)
    requires IsCell(key) && IsCell(required) && IsCell(affected) && key[0] != '#'
    requires ValidRowKey(key) && key !in ReservedKeys() && ValidColumn(required) && ValidColumn(affected)
    ensures Read(MapLine(key, required, affected))
            == Data(Row(key, required, affected, |key| >= 2 && key[|key| - 1] == '*'))
  {
    CellsRead(key, required, affected);
  }

  lemma BothIn(a: seq<string>, b: seq<string>, all: seq<string>)
    ensures (exists token | token in a + b :: token !in all)
            <==> (exists token | token in a :: token !in all) || exists token | token in b :: token !in all
  {
    assert forall token :: token in a + b <==> token in a || token in b;
  }

  /** When the columns of such a line are rejected: only for a token outside of the
      vocabulary, or for want of any.  That a column mixes reserved tokens with section
      keys plays no part. */
  lemma ColumnRejectedIff(key: string, required: string, affected: string)
    requires IsCell(key) && IsCell(required) && IsCell(affected) && key[0] != '#'
    requires ValidRowKey(key) && key !in ReservedKeys()
    ensures Read(MapLine(key, required, affected)).Bad?
            <==> Tokens(required) == [] || Tokens(affected) == []
                 || exists token | token in Tokens(required) + Tokens(affected) :: token !in Vocabulary()
  {
    CellsRead(key, required, affected);
    BothIn(Tokens(required), Tokens(affected), Vocabulary());
    ValidIff(required);
    ValidIff(affected);
  }

  lemma ValidIff(column: string)
    ensures ValidColumn(column)
            <==> Tokens(column) != [] && forall token | token in Tokens(column) :: token in Vocabulary()
  {
  }

  // ----- Classes of shell commands --------------------------------------------

  lemma ReadValid(line: string)
    requires Read(line).Data?
    ensures ValidColumn(Read(line).row.requiresSections) && ValidColumn(Read(line).row.affectedSections)
  {
  }

  lemma {:induction false} RowsValid(lines: seq<string>, row: Row)
    requires row in Loaded(lines).rows
    ensures ValidColumn(row.requiresSections) && ValidColumn(row.affectedSections)
  {
    var init, last := lines[..|lines| - 1], lines[|lines| - 1];
    if row in Loaded(init).rows {
      RowsValid(init, row);
    } else {
      ReadValid(last);
    }
  }

  lemma ColumnEmptyIff(column: string)
    requires ValidColumn(column)
    ensures SectionTokens(column) == [] <==> column == "-"
  {
  }

  lemma ColumnCovered(rows: seq<Row>, key: string, row: Row)
    requires Find(rows, key) == Some(row)
    ensures Complete(AffectedSections(rows, key))
            || forall x | x in SectionTokens(row.affectedSections) :: x in AffectedSections(rows, key)
  {
    if !MeansAll(Some(row)) {
      AffectedIsUnion(rows, key, row, SectionTokens(row.requiresSections), SectionTokens(row.affectedSections));
    }
  }

  lemma ClassCovered(row: Row, affected: seq<string>)
    requires SectionTokens(row.affectedSections) == [] <==> row.affectedSections == "-"
    requires MeansAll(Some(row)) ==> Complete(affected)
    requires Complete(affected) || forall x | x in SectionTokens(row.affectedSections) :: x in affected
    ensures ClassSections(Some(row)) == [] <==> row.affectedSections == "-"
    ensures Complete(affected) || forall x | x in ClassSections(Some(row)) :: x in affected
  {
  }

  lemma RowCovers(lines: seq<string>, key: string)
    ensures var rows := Loaded(lines).rows;
            var row := Find(rows, key);
            var sections, affected := ClassSections(row), AffectedSections(rows, key);
            && (row.None? ==> Complete(sections))
            && (sections == [] <==> row.Some? && row.value.affectedSections == "-")
            && (Complete(affected) || forall x | x in sections :: x in affected)
  {
    var rows := Loaded(lines).rows;
    var row := Find(rows, key);
    if row.Some? {
      FindIsBest(rows, key);
      RowsValid(lines, row.value);
      ColumnEmptyIff(row.value.affectedSections);
      ColumnCovered(rows, key, row.value);
      ClassCovered(row.value, AffectedSections(rows, key));
    }
  }

  /** What a shell command of a class invalidates: everything for the empty class and for
      one that has no row, nothing exactly for a class whose row says so, and never more
      than the tool of that row does. */
  lemma ShellClassCovers(lines: seq<string>, shellClass: string)
    ensures var rows, key := Loaded(lines).rows, "shell:" + shellClass;
            var sections, row := ShellClassSections(rows, shellClass), Find(rows, key);
            && (shellClass == "" || row.None? ==> Complete(sections))
            && (sections == [] <==> shellClass != "" && row.Some? && row.value.affectedSections == "-")
            && (shellClass != "" ==>
                  Complete(AffectedSections(rows, key)) || forall x | x in sections :: x in AffectedSections(rows, key))
  {
    RowCovers(lines, "shell:" + shellClass);
  }

  // ----- Two files ------------------------------------------------------------

  lemma WordColumn(section: string)
    requires IsWord(section) && section in Vocabulary()
    ensures ValidColumn(section)
  {
    TokensOfWord(section);
  }

  lemma BadLine(line: string)
    requires line == "x"
    ensures Read(line).Bad?
  {
    PiecesOfWord(line, c => c == '\t');
  }

  lemma GpuLine(line: string)
    requires line == "a\tgpu\tgpu"
    ensures Read(line) == Data(Row("a", "gpu", "gpu", false))
  {
    assert Vocabulary()[9] == "gpu";
    WordColumn("gpu");
    assert line == MapLine("a", "gpu", "gpu");
    LineRead("a", "gpu", "gpu");
  }

  /** A file whose load fails at its second line, and which still answers for its first. */
  lemma FailedLoadExample()
    ensures Loaded(["a\tgpu\tgpu", "x"]).fault.Some?
    ensures Find(Loaded(["a\tgpu\tgpu", "x"]).rows, "a") == Some(Row("a", "gpu", "gpu", false))
  {
    GpuLine("a\tgpu\tgpu");
    BadLine("x");
    FailedLoadStillAnswers("a\tgpu\tgpu", "x");
  }

  lemma MixedLineOf(key: string, section: string, mixed: string)
    requires IsCell(key) && key[0] != '#' && ValidRowKey(key) && key !in ReservedKeys() && key[|key| - 1] != '*'
    requires IsCell(section) && IsWord(section) && section in Vocabulary()
    requires mixed == "union" + " " + section
    ensures Read(MapLine(key, section, mixed)) == Data(Row(key, section, mixed, false))
  {
    MixedColumn(section);
    MixedCell(section, mixed);
    LineRead(key, section, mixed);
  }

  lemma MixedCell(section: string, mixed: string)
    requires IsCell(section) && mixed == "union" + " " + section
    ensures IsCell(mixed)
  {
    assert mixed[0] == 'u' && mixed[|mixed| - 1] == section[|section| - 1];
  }

  lemma MixedLine(line: string, mixed: string)
    requires line == "a\tgpu\tunion gpu" && mixed == "union gpu"
    ensures line == MapLine("a", "gpu", mixed) && mixed == "union" + " " + "gpu"
  {
  }

  lemma OneRowFile(line: string, row: Row)
    requires Read(line) == Data(row)
    ensures Loaded([line]) == Loading([row], None)
  {
    assert [line][..0] == [];
  }

  /** A file that loads although its column mixes a rule with a section, and whose row
      names the rule as a section. */
  lemma MixedColumnExample()
    ensures var l := Loaded(["a\tgpu\tunion gpu"]);
            && l.fault.None? && l.rows == [Row("a", "gpu", "union gpu", false)]
            && "union" in AffectedSections(l.rows, "a") && !Complete(AffectedSections(l.rows, "a"))
  {
    var line, mixed := "a\tgpu\tunion gpu", "union gpu";
    var row := Row("a", "gpu", mixed, false);
    MixedLine(line, mixed);
    assert Vocabulary()[9] == "gpu";
    MixedLineOf("a", "gpu", mixed);
    OneRowFile(line, row);
    MixedColumnAccepted(row, "gpu");
  }

  // ----- Lines that are skipped -----------------------------------------------

  /** A line is skipped exactly if it is blank, or its first character that is not blank
      is '#'. */
  lemma SkippedIff(raw: string)
    ensures Read(raw).Skip? <==> AllBlank(raw) || exists front, rest :: AllBlank(front) && raw == front + "#" + rest
  {
    var front, back := TrimMeaning(raw);
    var line := Trim(raw);
    if line == "" {
      assert raw == front + back;
    } else {
      assert raw[|front|] == line[0];
      if line[0] == '#' {
        assert raw == front + "#" + (line[1..] + back);
      }
    }
    if other, rest :| AllBlank(other) && raw == other + "#" + rest {
      assert raw[|other|] == '#';
      if line == "" || |other| < |front| {
        assert raw == front + line + back;
        assert IsBlank(raw[|other|]);
      }
      if |front| < |other| {
        assert raw[|front|] == other[|front|];
      }
    }
  }
}
