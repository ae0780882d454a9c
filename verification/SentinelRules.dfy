/** The sentinel protection of tools/translate_ts.py, on strings: the substitutions
    of protect_segment and restore_segment, each a left-to-right replacement. Word
    and digit classes are the ASCII ones. */
module SentinelRules {

  // ----- Characters and numbers -----------------------------------------------

  predicate IsDigit(c: char) { '0' <= c <= '9' }

  predicate IsWord(c: char) { 'a' <= c <= 'z' || 'A' <= c <= 'Z' || IsDigit(c) || c == '_' }

  function Upper(c: char): char {
    if 'a' <= c <= 'z' then (c as int - 32) as char else c
  }

  function UpperAll(text: string): (r: string)
    ensures |r| == |text|
  {
    if text == "" then "" else [Upper(text[0])] + UpperAll(text[1..])
  }

  function Decimal(n: nat): string {
    if n < 10 then [('0' as int + n) as char] else Decimal(n / 10) + [('0' as int + n % 10) as char]
  }

  function Value(digits: string): int {
    if digits == "" then 0
    else Value(digits[..|digits| - 1]) * 10 + (digits[|digits| - 1] as int - '0' as int)
  }

  predicate AllDigits(text: string) {
    text == "" || (IsDigit(text[0]) && AllDigits(text[1..]))
  }

  lemma {:induction false} AllDigitsAppend(text: string, c: char)
    requires AllDigits(text) && IsDigit(c)
    ensures AllDigits(text + [c])
  {
    if text == "" {
      assert [c][1..] == "";
    } else {
      assert (text + [c])[1..] == text[1..] + [c];
      AllDigitsAppend(text[1..], c);
    }
  }

  lemma {:induction false} DecimalRoundTrip(n: nat)
    ensures Decimal(n) != "" && AllDigits(Decimal(n)) && Value(Decimal(n)) == n
  {
    var last := ('0' as int + n % 10) as char;
    if n < 10 {
      assert AllDigits("");
      assert Decimal(n)[..0] == "";
    } else {
      DecimalRoundTrip(n / 10);
      AllDigitsAppend(Decimal(n / 10), last);
      assert Decimal(n)[..|Decimal(n)| - 1] == Decimal(n / 10);
    }
  }

  // ----- Sentinel-shaped words ------------------------------------------------

  function DigitRun(text: string): (n: nat)
    ensures n <= |text|
  {
    if text != "" && IsDigit(text[0]) then 1 + DigitRun(text[1..]) else 0
  }

  /** The sentinel at the front of a text. */
  datatype Sentinel =
    | Nothing
    | Digits(number: string)
    | Plural
    | Glyph(glyph: nat)
    | Run(line: nat, count: string)
    | Mnemonic
    | Term(index: string)

  /** The digits before an X at the front, or the empty string. */
  function Number(text: string): (number: string)
    ensures |number| < |text| || number == ""
  {
    var n := DigitRun(text);
    if n < |text| && text[n] == 'X' then text[..n] else ""
  }

  function ReadNumbered(text: string): (read: (Sentinel, nat)) {
    if |text| >= 3 && text[0] == 'P' && text[1] == 'H' && Number(text[2..]) != "" then
      (Digits(Number(text[2..])), 3 + |Number(text[2..])|)
    else if |text| >= 3 && text[0] == 'T' && text[1] == 'R' && Number(text[2..]) != "" then
      (Term(Number(text[2..])), 3 + |Number(text[2..])|)
    else if |text| >= 4 && text[0] == 'R' && text[1] == 'L' && (text[2] == 'A' || text[2] == 'B')
            && Number(text[3..]) != "" then
      (Run(if text[2] == 'A' then 0 else 1, Number(text[3..])), 4 + |Number(text[3..])|)
    else (Nothing, 0)
  }

  /** The sentinel at the front of a text, and its length. */
  function Read(text: string): (read: (Sentinel, nat)) {
    if |text| >= 4 && text[0] == 'P' && text[1] == 'H' && text[2] == 'N' && text[3] == 'X' then (Plural, 4)
    else if |text| >= 4 && text[0] == 'G' && text[1] == 'L' && '1' <= text[2] <= '6' && text[3] == 'X' then
      (Glyph(text[2] as int - '1' as int), 4)
    else if |text| >= 5 && text[0] == 'G' && text[1] == 'L' && text[2] == 'A' && text[3] == 'M' && text[4] == 'X' then
      (Mnemonic, 5)
    else ReadNumbered(text)
  }

  /** No sentinel-shaped text anywhere. */
  predicate Clean(text: string) {
    text == "" || (Read(text).0.Nothing? && Clean(text[1..]))
  }

  // ----- The substitutions ----------------------------------------------------

  /** The six glyphs, and the two separator lines. */
  function GlyphChar(glyph: nat): char {
    match glyph
    case 0 => '\U{2026}'
    case 1 => '\U{2022}'
    case 2 => '\U{2192}'
    case 3 => '\U{2713}'
    case 4 => '\U{2717}'
    case _ => '\U{25aa}'
  }

  function LineChar(line: nat): char {
    if line == 0 then '\U{2500}' else '\U{2550}'
  }

  function DigitsToken(number: string): string {
    "PH" + number + "X"
  }

  function GlyphToken(glyph: nat): string {
    "GL" + Decimal(glyph + 1) + "X"
  }

  function RunToken(line: nat, count: nat): string {
    ['R', 'L', if line == 0 then 'A' else 'B'] + Decimal(count) + "X"
  }

  function TermToken(index: nat): string {
    "TR" + Decimal(index + 1) + "X"
  }

  function CharRun(c: char, text: string): (n: nat)
    ensures n <= |text|
  {
    if text != "" && text[0] == c then 1 + CharRun(c, text[1..]) else 0
  }

  function Repeat(c: char, n: nat): (text: string)
    ensures |text| == n
  {
    if n == 0 then "" else [c] + Repeat(c, n - 1)
  }

  /** Equal up to the case of ASCII letters, at the front of a text. */
  predicate SpelledAt(term: string, text: string) {
    term == "" || (text != "" && Upper(term[0]) == Upper(text[0]) && SpelledAt(term[1..], text[1..]))
  }

  lemma {:induction false} SpelledLength(term: string, text: string)
    requires SpelledAt(term, text)
    ensures |term| <= |text|
  {
    if term != "" {
      SpelledLength(term[1..], text[1..]);
    }
  }

  predicate PossessiveAt(text: string) {
    && |text| >= 2 && (text[0] == '\'' || text[0] == '\U{2019}') && text[1] == 's'
    && (|text| == 2 || !IsWord(text[2]))
  }

  predicate FollowsTerm(text: string) {
    text == "" || !(IsWord(text[0]) || text[0] == '-')
  }

  predicate TermAt(term: string, behind: bool, text: string) {
    !behind && term != "" && |term| <= |text| && SpelledAt(term, text) && FollowsTerm(text[|term|..])
  }

  function PlaceholderLength(text: string): nat {
    if |text| < 2 || text[0] != '%' then 0
    else if text[1] == 'n' then 2
    else if DigitRun(text[1..]) > 0 then 1 + DigitRun(text[1..]) else 0
  }

  function PossessiveLength(text: string): nat {
    var (sentinel, length) := Read(text);
    if (sentinel.Digits? || sentinel.Plural?) && length <= |text| && PossessiveAt(text[length..]) then length + 2
    else 0
  }

  /** A substitution: how much its pattern takes at the front of a text, told whether
      a word character stands before it, and what replaces the text taken. */
  datatype Rule = Rule(take: (bool, string) -> nat, put: string -> string)

  function Literal(token: string, replacement: string): Rule {
    Rule((behind, text) => if token <= text then |token| else 0, taken => replacement)
  }

  function PlaceholderIn(): Rule {
    Rule((behind, text) => PlaceholderLength(text),
         taken => if |taken| < 2 || taken[1] == 'n' then "PHNX" else DigitsToken(taken[1..]))
  }

  function PossessiveIn(): Rule {
    Rule((behind, text) => PossessiveLength(text), taken => if |taken| < 2 then "" else taken[..|taken| - 2])
  }

  function GlyphIn(glyph: nat): Rule { Literal([GlyphChar(glyph)], GlyphToken(glyph)) }

  function RunIn(line: nat): Rule {
    Rule((behind, text) => if CharRun(LineChar(line), text) >= 2 then CharRun(LineChar(line), text) else 0,
         taken => RunToken(line, |taken|))
  }

  function MnemonicIn(): Rule { Literal("&", "GLAMX ") }

  function TermIn(index: nat, term: string): Rule {
    Rule((behind, text) => if TermAt(term, behind, text) then |term| else 0, taken => TermToken(index))
  }

  function DigitsOut(): Rule {
    Rule((behind, text) => if Read(text).0.Digits? then Read(text).1 else 0,
         taken => if |taken| < 3 then "" else "%" + taken[2..|taken| - 1])
  }

  function PluralOut(): Rule { Literal("PHNX", "%n") }

  function GlyphOut(glyph: nat): Rule { Literal(GlyphToken(glyph), [GlyphChar(glyph)]) }

  function RunOut(line: nat): Rule {
    Rule((behind, text) => if Read(text).0.Run? && Read(text).0.line == line then Read(text).1 else 0,
         taken => if |taken| < 4 || Value(taken[3..|taken| - 1]) < 0 then ""
                  else Repeat(LineChar(line), Value(taken[3..|taken| - 1])))
  }

  function MnemonicOut(): Rule { Literal("GLAMX", "&") }

  function SpacesOut(): Rule {
    Rule((behind, text) => if text != "" && text[0] == '&' && CharRun(' ', text[1..]) > 0 then
                             1 + CharRun(' ', text[1..])
                           else 0,
         taken => "&")
  }

  function TermOut(index: nat, term: string): Rule { Literal(TermToken(index), term) }

  /** re.sub and str.replace: every match from left to right, without overlaps. */
  function Sub(rule: Rule, behind: bool, text: string): string
    decreases |text|
  {
    if text == "" then ""
    else
      var n := rule.take(behind, text);
      if 0 < n <= |text| then rule.put(text[..n]) + Sub(rule, IsWord(text[n - 1]), text[n..])
      else [text[0]] + Sub(rule, IsWord(text[0]), text[1..])
  }

  /** findall of the placeholder pattern. */
  function PlaceholdersOf(text: string): seq<string>
    decreases |text|
  {
    if text == "" then []
    else
      var n := PlaceholderLength(text);
      if 0 < n <= |text| then [text[..n]] + PlaceholdersOf(text[n..]) else PlaceholdersOf(text[1..])
  }

  /** The substitutions of protect_segment in their order: placeholders, possessives,
      glyphs, separator lines, mnemonics, and the terms in the order of their table. */
  function InRule(terms: seq<string>, stage: nat): Rule
    requires stage < 11 + |terms|
  {
    if stage == 0 then PlaceholderIn()
    else if stage == 1 then PossessiveIn()
    else if stage < 8 then GlyphIn(stage - 2)
    else if stage < 10 then RunIn(stage - 8)
    else if stage == 10 then MnemonicIn()
    else TermIn(stage - 11, terms[stage - 11])
  }

  function ProtectTo(terms: seq<string>, stage: nat, segment: string): string
    requires stage <= 11 + |terms|
  {
    if stage == 0 then segment else Sub(InRule(terms, stage - 1), false, ProtectTo(terms, stage - 1, segment))
  }

  function ProtectSegment(terms: seq<string>, segment: string): string {
    ProtectTo(terms, 11 + |terms|, segment)
  }

  /** Those of restore_segment. */
  function OutRule(terms: seq<string>, stage: nat): Rule
    requires stage < 12 + |terms|
  {
    if stage == 0 then DigitsOut()
    else if stage == 1 then PluralOut()
    else if stage < 8 then GlyphOut(stage - 2)
    else if stage < 10 then RunOut(stage - 8)
    else if stage == 10 then MnemonicOut()
    else if stage == 11 then SpacesOut()
    else TermOut(stage - 12, terms[stage - 12])
  }

  function RestoreTo(terms: seq<string>, stage: nat, segment: string): string
    requires stage <= 12 + |terms|
  {
    if stage == 0 then segment else Sub(OutRule(terms, stage - 1), false, RestoreTo(terms, stage - 1, segment))
  }

  function RestoreSegment(terms: seq<string>, segment: string): string {
    RestoreTo(terms, 12 + |terms|, segment)
  }

  // ----- Walking over a text --------------------------------------------------

  ghost predicate Misses(rule: Rule, behind: bool, text: string) {
    !(0 < rule.take(behind, text) <= |text|)
  }

  /** A rule takes nothing at any place of front, with rest behind it. */
  ghost predicate Quiet(rule: Rule, behind: bool, front: string, rest: string)
    decreases |front|
  {
    front == "" || (Misses(rule, behind, front + rest) && Quiet(rule, IsWord(front[0]), front[1..], rest))
  }

  function Behind(behind: bool, front: string): bool {
    if front == "" then behind else IsWord(front[|front| - 1])
  }

  lemma SubKeeps(rule: Rule, behind: bool, c: char, rest: string)
    requires Misses(rule, behind, [c] + rest)
    ensures Sub(rule, behind, [c] + rest) == [c] + Sub(rule, IsWord(c), rest)
  {
    assert ([c] + rest)[1..] == rest;
  }

  lemma BehindTail(behind: bool, front: string)
    requires front != ""
    ensures Behind(behind, front) == Behind(IsWord(front[0]), front[1..])
  {
  }

  lemma HeadFirst(front: string, rest: string)
    requires front != ""
    ensures front + rest == [front[0]] + (front[1..] + rest)
  {
  }

  lemma {:induction false} SubQuiet(rule: Rule, behind: bool, front: string, rest: string)
    requires Quiet(rule, behind, front, rest)
    ensures Sub(rule, behind, front + rest) == front + Sub(rule, Behind(behind, front), rest)
    decreases |front|
  {
    if front == "" {
      assert front + rest == rest;
    } else {
      var c, tail := front[0], front[1..];
      SubQuiet(rule, IsWord(c), tail, rest);
      HeadFirst(front, rest);
      SubKeeps(rule, behind, c, tail + rest);
      BehindTail(behind, front);
      HeadFirst(front, Sub(rule, Behind(behind, front), rest));
    }
  }

  lemma SubHit(rule: Rule, behind: bool, front: string, rest: string)
    requires front != "" && rule.take(behind, front + rest) == |front|
    ensures Sub(rule, behind, front + rest) == rule.put(front) + Sub(rule, Behind(behind, front), rest)
  {
    assert (front + rest)[..|front|] == front && (front + rest)[|front|..] == rest;
  }
}
