/** Sentinel-shaped words never overlap: no word starts inside another one. */
module SentinelWords {
  import opened SentinelRules

  /** A rest of a sentinel behind its first character. The characters that start a
      sentinel are missing, but for the R of TR, which a digit follows. */
  predicate Tail(text: string) {
    text == "" || (InnerChar(text[0], if |text| > 1 then text[1] else 'Z') && Tail(text[1..]))
  }

  predicate InnerChar(c: char, next: char) {
    IsDigit(c) || c == 'H' || c == 'N' || c == 'L' || c == 'A' || c == 'B' || c == 'M' || c == 'X'
    || (c == 'R' && IsDigit(next))
  }

  lemma {:induction false} DigitsTail(digits: string, rest: string)
    requires AllDigits(digits) && Tail(rest)
    ensures Tail(digits + rest)
  {
    if digits == "" {
      assert digits + rest == rest;
    } else {
      assert (digits + rest)[1..] == digits[1..] + rest;
      DigitsTail(digits[1..], rest);
    }
  }

  lemma TailX()
    ensures Tail("X")
  {
    assert Tail("X"[1..]);
  }

  lemma {:induction false} DigitRunDigits(text: string)
    ensures AllDigits(text[..DigitRun(text)])
  {
    if text != "" && IsDigit(text[0]) {
      DigitRunDigits(text[1..]);
      assert text[..DigitRun(text)][1..] == text[1..][..DigitRun(text[1..])];
    }
  }

  lemma {:induction false} DigitRunOf(digits: string, rest: string)
    requires AllDigits(digits) && (rest == "" || !IsDigit(rest[0]))
    ensures DigitRun(digits + rest) == |digits|
  {
    if digits == "" {
      assert digits + rest == rest;
    } else {
      assert (digits + rest)[1..] == digits[1..] + rest;
      DigitRunOf(digits[1..], rest);
    }
  }

  lemma NumberOf(digits: string, rest: string)
    requires AllDigits(digits)
    ensures Number(digits + "X" + rest) == digits
  {
    DigitRunOf(digits, "X" + rest);
    assert digits + ("X" + rest) == digits + "X" + rest;
  }

  lemma NumberDigits(text: string)
    ensures AllDigits(Number(text)) && |Number(text)| <= |text|
    ensures Number(text) != "" ==> |Number(text)| < |text| && text[..|Number(text)| + 1] == Number(text) + "X"
  {
    DigitRunDigits(text);
  }

  /** The number is known from a front that holds the X behind it. */
  lemma NumberFront(text: string, other: string)
    requires Number(text) != "" && Number(text) + "X" <= other
    ensures Number(other) == Number(text)
  {
    NumberDigits(text);
    var digits := Number(text);
    NumberOf(digits, other[|digits| + 1..]);
    assert digits + "X" + other[|digits| + 1..] == other;
  }

  /** A sentinel of the numbered kinds: letters in front, digits, X. */
  lemma ReadLetters(text: string)
    ensures Read(text).0.Digits? ==> |text| >= 3 && text[0] == 'P' && text[1] == 'H'
                                     && Number(text[2..]) == Read(text).0.number != ""
                                     && Read(text).1 == 3 + |Read(text).0.number|
    ensures Read(text).0.Term? ==> |text| >= 3 && text[0] == 'T' && text[1] == 'R'
                                   && Number(text[2..]) == Read(text).0.index != ""
                                   && Read(text).1 == 3 + |Read(text).0.index|
    ensures Read(text).0.Run? ==> |text| >= 4 && text[0] == 'R' && text[1] == 'L'
                                  && text[2] == (if Read(text).0.line == 0 then 'A' else 'B') && Read(text).0.line < 2
                                  && Number(text[3..]) == Read(text).0.count != ""
                                  && Read(text).1 == 4 + |Read(text).0.count|
  {
  }

  /** Digits and an X from a place of a text on. */
  lemma NumberTail(text: string, from: nat)
    requires from <= |text| && Number(text[from..]) != ""
    ensures var end := from + |Number(text[from..])| + 1;
            end <= |text| && text[from..end] == Number(text[from..]) + "X" && Tail(text[from..end])
  {
    var number := Number(text[from..]);
    NumberDigits(text[from..]);
    TailX();
    DigitsTail(number, "X");
    assert text[from..][..|number| + 1] == text[from..from + |number| + 1];
  }

  lemma TailCons(c: char, next: char, rest: string)
    requires InnerChar(c, if rest == "" then 'Z' else rest[0]) && Tail(rest)
    ensures Tail([c] + rest)
  {
    assert ([c] + rest)[1..] == rest;
  }

  lemma ShortTail(text: string)
    requires |text| <= 4 && forall i | 0 <= i < |text| :: text[i] != 'R' && InnerChar(text[i], 'Z')
    ensures Tail(text)
    decreases |text|
  {
    if text != "" {
      ShortTail(text[1..]);
    }
  }

  /** A sentinel lies inside the text it was read from, and no sentinel can start
      behind its first character. */
  lemma ReadTail(text: string)
    requires !Read(text).0.Nothing?
    ensures 4 <= Read(text).1 <= |text| && Tail(text[1..Read(text).1])
    ensures text[0] == 'P' || text[0] == 'G' || text[0] == 'T' || (text[0] == 'R' && text[1] == 'L')
  {
    var (sentinel, n) := Read(text);
    ReadLetters(text);
    if sentinel.Digits? || sentinel.Term? {
      NumberTail(text, 2);
      NumberDigits(text[2..]);
      assert text[2] == Number(text[2..])[0];
      TailCons(text[1], 'Z', text[2..n]);
      assert [text[1]] + text[2..n] == text[1..n];
    } else if sentinel.Run? {
      NumberTail(text, 3);
      TailCons(text[2], 'Z', text[3..n]);
      assert [text[2]] + text[3..n] == text[2..n];
      TailCons(text[1], 'Z', text[2..n]);
      assert [text[1]] + text[2..n] == text[1..n];
    } else {
      ShortTail(text[1..n]);
    }
  }

  /** A sentinel is read from its own characters alone. */
  lemma ReadFront(text: string, other: string)
    requires !Read(text).0.Nothing?
    requires Read(text).1 <= |text| && text[..Read(text).1] <= other
    ensures Read(other) == Read(text)
  {
    var (sentinel, n) := Read(text);
    ReadLetters(text);
    assert forall i | 0 <= i < n :: other[i] == text[..n][i];
    if sentinel.Digits? || sentinel.Term? {
      FrontNumber(text, other, 2, n);
    } else if sentinel.Run? {
      FrontNumber(text, other, 3, n);
    }
  }

  lemma FrontNumber(text: string, other: string, from: nat, end: nat)
    requires from <= |text| && Number(text[from..]) != "" && end == from + |Number(text[from..])| + 1
    requires end <= |text| && text[..end] <= other
    ensures Number(other[from..]) == Number(text[from..])
  {
    NumberTail(text, from);
    assert other[from..][..end - from] == text[from..end] by {
      assert other[..end] == text[..end];
      assert other[from..end] == text[from..end];
    }
    NumberFront(text[from..], other[from..]);
  }

  /** Nothing is read from a rest of a sentinel. */
  lemma TailReadsNothing(tail: string, rest: string)
    requires tail != "" && Tail(tail)
    ensures Read(tail + rest).0.Nothing?
  {
    if !Read(tail + rest).0.Nothing? {
      ReadTail(tail + rest);
    }
  }

  // ----- The tokens are read back ---------------------------------------------

  lemma ReadDigits(digits: string, rest: string)
    requires digits != "" && AllDigits(digits)
    ensures Read(DigitsToken(digits) + rest) == (Digits(digits), |DigitsToken(digits)|)
  {
    NumberOf(digits, rest);
    var text := DigitsToken(digits) + rest;
    assert text[2..] == digits + "X" + rest;
    assert IsDigit(text[2]) by { assert text[2] == digits[0]; }
  }

  lemma ReadTerm(index: nat, rest: string)
    ensures Read(TermToken(index) + rest) == (Term(Decimal(index + 1)), |TermToken(index)|)
  {
    var digits := Decimal(index + 1);
    DecimalRoundTrip(index + 1);
    NumberOf(digits, rest);
    assert (TermToken(index) + rest)[2..] == digits + "X" + rest;
  }

  lemma ReadRun(line: nat, count: nat, rest: string)
    requires line < 2
    ensures Read(RunToken(line, count) + rest) == (Run(line, Decimal(count)), |RunToken(line, count)|)
  {
    var digits := Decimal(count);
    DecimalRoundTrip(count);
    NumberOf(digits, rest);
    assert (RunToken(line, count) + rest)[3..] == digits + "X" + rest;
  }

  lemma ReadGlyph(glyph: nat, rest: string)
    requires glyph < 6
    ensures Read(GlyphToken(glyph) + rest) == (Glyph(glyph), 4) && |GlyphToken(glyph)| == 4
  {
  }

  lemma ReadFixed(rest: string)
    ensures Read("PHNX" + rest) == (Plural, 4)
    ensures Read("GLAMX" + rest) == (Mnemonic, 5)
  {
  }

  /** A clean text has no sentinel at any place. */
  lemma {:induction false} CleanRest(front: string, rest: string)
    requires Clean(front + rest)
    ensures Clean(rest)
  {
    if front == "" {
      assert front + rest == rest;
    } else {
      assert (front + rest)[1..] == front[1..] + rest;
      CleanRest(front[1..], rest);
    }
  }
}
