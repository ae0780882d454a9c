/** verify of tools/translate_ts.py (520-572): what a candidate must preserve before it is
    shipped. */
module TranslationVerify {
  import opened SentinelRules
  import opened TranslationDriver
  import Text

  datatype Origin = Override | TermOnly | Machine

  /** is_token_only. */
  predicate IsTokenOnly(source: string) {
    Text.Trim(source) == "" || !HasLetter(Text.Trim(source))
  }

  predicate IsBlank(text: string) { Text.Trim(text) == "" }

  /** A sentinel that came back untranslated: numbered ones and the plural, but not the
      mnemonic. */
  predicate SurvivorAt(text: string) {
    var sentinel := Read(text).0;
    || sentinel.Digits? || sentinel.Plural? || sentinel.Run? || sentinel.Term?
    || (|text| >= 3 && text[0] == 'G' && text[1] == 'L' && Number(text[2..]) != "")
  }

  predicate HasSurvivor(text: string) {
    text != "" && (SurvivorAt(text) || HasSurvivor(text[1..]))
  }

  /** A term at a place of a source: the boundaries of the protection. */
  predicate HasTerm(term: string, behind: bool, text: string)
    decreases |text|
  {
    TermAt(term, behind, text) || (text != "" && HasTerm(term, IsWord(text[0]), text[1..]))
  }

  predicate LooseAt(term: string, behind: bool, text: string) {
    && !behind && term != "" && |term| <= |text| && SpelledAt(term, text)
    && (|term| == |text| || !(IsLetter(text[|term|]) || IsDigit(text[|term|])))
  }

  /** A term anywhere in a translation: only an ASCII letter or digit hides it. */
  predicate HasTermLoosely(term: string, behind: bool, text: string)
    decreases |text|
  {
    LooseAt(term, behind, text) || (text != "" && HasTermLoosely(term, IsWord(text[0]), text[1..]))
  }

  predicate TermsSurvive(terms: seq<string>, source: string, translation: string) {
    forall i | 0 <= i < |terms| :: HasTerm(terms[i], false, source) ==> HasTermLoosely(terms[i], false, translation)
  }

  predicate Verify(terms: seq<string>, source: string, translation: string, origin: Origin) {
    && !IsBlank(translation)
    && multiset(PlaceholdersOf(translation)) == multiset(PlaceholdersOf(source))
    && Newlines(translation) == Newlines(source)
    && (origin.Machine? ==>
          && Text.Trim(translation) != Text.Trim(source)
          && !HasSurvivor(translation)
          && TermsSurvive(terms, source, translation))
  }
}
