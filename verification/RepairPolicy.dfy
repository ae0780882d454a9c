/** Which diagnostic sections a repair needs and which it invalidates: the map
    policies of legacy/gui/src/EvidenceParser.cpp. */
module RepairPolicy {
  import opened Outcomes
  import opened Lists
  import opened RepairMap
  import RepairMapOrder

  function SectionTokens(column: string): seq<string> {
    if column == "-" then [] else Tokens(column)
  }

  method AppendUniqueSections(target: seq<string>, more: seq<string>) returns (r: seq<string>)
    ensures r == AddedUnique(target, more)
  {
    r := target;
    for i := 0 to |more|
      invariant r == AddedUnique(target, more[..i])
    {
      assert more[..i + 1][..i] == more[..i];
      var present := false;
      for j := 0 to |r|
        invariant present <==> more[i] in r[..j]
      {
        if r[j] == more[i] {
          present := true;
          break;
        }
      }
      if !present {
        r := r + [more[i]];
      }
    }
    assert more[..|more|] == more;
  }

  /** Unknown keys, rule rows and "report" mean the complete set. */
  predicate MeansAll(row: Option<Row>) {
    || row.None?
    || row.value.affectedSections == "all" || row.value.affectedSections == "union"
    || row.value.affectedSections == "shell-class"
    || row.value.requiresSections == "report" || row.value.requiresSections == "union"
  }

  function UnionSections(rows: seq<Row>, key: string, emptyIsComplete: bool): seq<string> {
    var row := Find(rows, key);
    if MeansAll(row) then ["all"]
    else
      var sections := AddedUnique(AddedUnique([], SectionTokens(row.value.requiresSections)),
                                  SectionTokens(row.value.affectedSections));
      if sections == [] && emptyIsComplete then ["all"] else sections
  }

  method UnionRowSections(m: RepairDiagnosticMap, key: string, emptyIsComplete: bool) returns (result: seq<string>)
    ensures result == UnionSections(m.rows, key, emptyIsComplete)
  {
    var row := m.FindRow(key);
    if MeansAll(row) {
      return ["all"];
    }
    result := AppendUniqueSections([], SectionTokens(row.value.requiresSections));
    result := AppendUniqueSections(result, SectionTokens(row.value.affectedSections));
    if result == [] && emptyIsComplete {
      result := result + ["all"];
    }
  }

  function RequiredSections(rows: seq<Row>, key: string): seq<string> {
    var row := Find(rows, key);
    if row.None? || row.value.requiresSections == "union" then ["report"]
    else SectionTokens(row.value.requiresSections)
  }

  /** What a tool invalidates. */
  function AffectedSections(rows: seq<Row>, key: string): seq<string> { UnionSections(rows, key, false) }

  /** What a repair invalidates that was cancelled after a change. */
  function CancelledSections(rows: seq<Row>, key: string): seq<string> { UnionSections(rows, key, true) }

  function ShellClassSections(rows: seq<Row>, shellClass: string): seq<string> {
    if shellClass == "" then ["all"] else ClassSections(Find(rows, "shell:" + shellClass))
  }

  function ClassSections(row: Option<Row>): seq<string> {
    if row.None? || row.value.affectedSections in ["all", "union", "shell-class"] then ["all"]
    else SectionTokens(row.value.affectedSections)
  }

  predicate Complete(sections: seq<string>) { "all" in sections }

  /** For a row that is no rule row the affected set is the union of its columns. */
  lemma AffectedIsUnion(rows: seq<Row>, key: string, row: Row, required: seq<string>, affected: seq<string>)
    requires Find(rows, key) == Some(row) && !MeansAll(Some(row))
    requires SectionTokens(row.requiresSections) == required && SectionTokens(row.affectedSections) == affected
    ensures forall x :: x in AffectedSections(rows, key) <==> x in required || x in affected
    ensures NoRepeats(AffectedSections(rows, key))
  {
    AddedUniqueMeaning([], required);
    AddedUniqueMeaning(AddedUnique([], required), affected);
  }

  /** The rows that mean everything, and what any other row names. */
  lemma RowsThatMeanAll(rows: seq<Row>, key: string)
    ensures var row := Find(rows, key);
            var affected, cancelled := AffectedSections(rows, key), CancelledSections(rows, key);
            if row.None? || row.value.affectedSections in ["all", "union", "shell-class"]
               || row.value.requiresSections in ["report", "union"] then
              affected == ["all"] && cancelled == ["all"]
            else
              && (forall x :: x in affected <==> (x in SectionTokens(row.value.requiresSections)
                                                || x in SectionTokens(row.value.affectedSections)))
              && cancelled == if affected == [] then ["all"] else affected
    ensures RequiredSections(rows, key)
            == match Find(rows, key)
               case None => ["report"]
               case Some(row) =>
                 if row.requiresSections == "union" then ["report"] else SectionTokens(row.requiresSections)
  {
    var row := Find(rows, key);
    if !MeansAll(row) {
      AffectedIsUnion(rows, key, row.value, SectionTokens(row.value.requiresSections),
                      SectionTokens(row.value.affectedSections));
    }
  }

  /** A tool invalidates everything it needs, or everything there is; a cancelled
      repair invalidates at least that and never nothing; and no section is named
      twice. */
  lemma InvalidationCovers(rows: seq<Row>, key: string)
    ensures var required, affected, cancelled :=
              RequiredSections(rows, key), AffectedSections(rows, key), CancelledSections(rows, key);
            && (Complete(affected) || forall x | x in required :: x in affected)
            && (forall x | x in affected :: x in cancelled)
            && cancelled != []
            && NoRepeats(affected) && NoRepeats(cancelled)
  {
    var row := Find(rows, key);
    if !MeansAll(row) {
      AffectedIsUnion(rows, key, row.value, SectionTokens(row.value.requiresSections),
                      SectionTokens(row.value.affectedSections));
    }
  }

  // ----- Mixed columns --------------------------------------------------------

  lemma {:induction false} PiecesOfWord(word: string, separates: char -> bool)
    requires forall i | 0 <= i < |word| :: !separates(word[i])
    ensures Pieces(word, separates) == [word]
  {
    if word != "" {
      PiecesOfWord(word[..|word| - 1], separates);
      assert word == word[..|word| - 1] + [word[|word| - 1]];
    }
  }

  lemma {:induction false} PiecesCut(a: string, c: char, b: string, separates: char -> bool)
    requires separates(c)
    ensures Pieces(a + [c] + b, separates) == Pieces(a, separates) + Pieces(b, separates)
    decreases |b|
  {
    var text := a + [c] + b;
    if b == "" {
      assert text[..|text| - 1] == a;
    } else {
      assert text[..|text| - 1] == a + [c] + b[..|b| - 1];
      PiecesCut(a, c, b[..|b| - 1], separates);
    }
  }

  lemma {:induction false} NonEmptyAppend(a: seq<string>, b: seq<string>)
    ensures NonEmpty(a + b) == NonEmpty(a) + NonEmpty(b)
    decreases |b|
  {
    if b == [] {
      assert a + b == a;
    } else {
      assert (a + b)[..|a + b| - 1] == a + b[..|b| - 1];
      NonEmptyAppend(a, b[..|b| - 1]);
    }
  }

  predicate IsWord(word: string) {
    word != "" && forall i | 0 <= i < |word| :: !Separates(word[i])
  }

  lemma TokensOfWord(word: string)
    requires IsWord(word)
    ensures Tokens(word) == [word]
  {
    PiecesOfWord(word, Separates);
    assert NonEmpty([word]) == NonEmpty([word][..0]) + [word];
  }

  /** A column is cut at every space and comma. */
  lemma TokensCut(a: string, c: char, b: string)
    requires c == ' ' || c == ','
    ensures Tokens(a + [c] + b) == Tokens(a) + Tokens(b)
  {
    PiecesCut(a, c, b, Separates);
    NonEmptyAppend(Pieces(a, Separates), Pieces(b, Separates));
  }

  /** A rule token is handed out as if it were a section exactly when the row that
      was found is no rule row and one of its columns mixes the token in. */
  lemma RuleTokenLeaksIff(rows: seq<Row>, key: string, token: string)
    requires token in ["-", "union", "shell-class"]
    ensures token in AffectedSections(rows, key)
            <==> var row := Find(rows, key);
                 !MeansAll(row) && (token in SectionTokens(row.value.requiresSections)
                                    || token in SectionTokens(row.value.affectedSections))
  {
    var row := Find(rows, key);
    assert token != "all";
    if !MeansAll(row) {
      AffectedIsUnion(rows, key, row.value, SectionTokens(row.value.requiresSections),
                      SectionTokens(row.value.affectedSections));
    }
  }

  lemma MixedColumn(section: string)
    requires IsWord(section) && section in Vocabulary()
    ensures Tokens("union" + " " + section) == ["union", section]
    ensures ValidColumn("union" + " " + section) && ValidColumn(section)
  {
    TokensCut("union", ' ', section);
    TokensOfWord("union");
    TokensOfWord(section);
    assert Vocabulary()[23] == "union";
  }

  lemma NoRuleRow(row: Row, section: string)
    requires IsWord(section) && section !in ["report", "union"]
    requires row.requiresSections == section && row.affectedSections == "union" + " " + section
    ensures !MeansAll(Some(row))
  {
    var column := row.affectedSections;
    assert |column| == 6 + |section| && column[5] == ' ';
  }

  lemma MixedSections(row: Row, section: string)
    requires IsWord(section) && section in Vocabulary() && section != "-"
    requires row.requiresSections == section && row.affectedSections == "union" + " " + section
    ensures SectionTokens(row.requiresSections) == [section]
    ensures SectionTokens(row.affectedSections) == ["union", section]
  {
    MixedColumn(section);
    TokensOfWord(section);
    assert row.affectedSections[5] == ' ';
  }

  lemma BothNamed(rows: seq<Row>, row: Row, section: string)
    requires Find(rows, row.key) == Some(row) && !MeansAll(Some(row)) && section != "all"
    requires SectionTokens(row.requiresSections) == [section]
    requires SectionTokens(row.affectedSections) == ["union", section]
    ensures "union" in AffectedSections(rows, row.key) && !Complete(AffectedSections(rows, row.key))
  {
    var affected := ["union", section];
    AffectedIsUnion(rows, row.key, row, [section], affected);
    assert affected[0] in affected;
  }

  /** The loader's promise that a column never mixes a reserved token with section
      keys does not hold: such a column is accepted, and the row then names the rule
      token as a section instead of falling back to the complete set. */
  lemma MixedColumnAccepted(row: Row, section: string)
    requires IsWord(section) && section in Vocabulary() && section !in ["all", "report", "union", "-"]
    requires row.requiresSections == section && row.affectedSections == "union" + " " + section
    ensures ValidColumn(row.requiresSections) && ValidColumn(row.affectedSections)
    ensures "union" in AffectedSections([row], row.key)
    ensures !Complete(AffectedSections([row], row.key))
  {
    MixedColumn(section);
    NoRuleRow(row, section);
    RepairMapOrder.FindOnly(row);
    TokensOfWord(section);
    MixedSections(row, section);
    BothNamed([row], row, section);
  }
}
