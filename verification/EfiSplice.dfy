/** encode_label and the description splice of scripts/boot-repair-efi-label.py (87-94 and
    136-141). */
module EfiSplice {
  import opened Outcomes
  import opened Utf16
  import opened LoadOption

  /** The new description with its terminator. */
  function EncodeLabel(desc: Text): Result<Bytes, Fault> {
    if desc == [] || 0 in desc || |desc| > MAX_LABEL then Err(LabelRefused)
    else match Encode(desc)
      case None => Err(LabelNotUtf16)
      case Some(bytes) => Ok(bytes + [0, 0])
  }

  /** The labels that are taken: 1 to 240 code points, no NUL and no surrogate among them. */
  lemma LabelIff(desc: Text)
    ensures EncodeLabel(desc).Ok?
            <==> 0 < |desc| <= 240 && forall i | 0 <= i < |desc| :: desc[i] != 0 && !(0xD800 <= desc[i] < 0xE000)
  {
    EncodeDefined(desc);
  }

  function Splice(original: Bytes, replacement: Bytes, end: nat): Bytes
    requires 4 + end + 2 <= |original| && 6 <= end
  {
    original[..4] + original[4..][..6] + replacement + original[4..][end + 2..]
  }

  /** Where each byte of a splice comes from. */
  lemma SpliceLayout(original: Bytes, replacement: Bytes, end: nat)
    requires 4 + end + 2 <= |original| && 6 <= end
    ensures var updated := Splice(original, replacement, end);
            && |updated| == |original| + |replacement| - (end + 2 - 6)
            && updated[..4] == original[..4]
            && updated[4..][..6] == original[4..][..6]
            && updated[4..][6..6 + |replacement|] == replacement
            && updated[4..][6 + |replacement|..] == original[4..][end + 2..]
  {
    var updated := Splice(original, replacement, end);
    var option := original[4..];
    assert updated == original[..4] + (option[..6] + replacement + option[end + 2..]);
    assert updated[4..] == option[..6] + replacement + option[end + 2..];
  }

  lemma NoZeroUnits(desc: Text, bytes: Bytes, option: Bytes)
    requires 0 !in desc && Encode(desc) == Some(bytes)
    requires 6 + |bytes| <= |option| && option[6..6 + |bytes|] == bytes
    ensures forall k | 6 <= k < 6 + |bytes| && k % 2 == 0 :: !ZeroUnit(option, k)
  {
    ZeroUnitIffNul(desc);
    forall k | 6 <= k < 6 + |bytes| && k % 2 == 0 ensures !ZeroUnit(option, k) {
      var n: nat := (k - 6) / 2;
      assert 2 * n == k - 6 && 2 * n + 2 <= |bytes|;
      assert UnitAt(bytes, 2 * n) != 0;
      var stored := option[6..6 + |bytes|];
      assert option[k] == stored[2 * n] && option[k + 1] == stored[2 * n + 1];
    }
  }

  /** An encoded label is scanned back to its terminator, wherever it stands
      behind the six header bytes. */
  lemma LabelDescribes(desc: Text, option: Bytes)
    requires EncodeLabel(desc).Ok?
    requires |option| >= 6 + |EncodeLabel(desc).value|
    requires option[6..6 + |EncodeLabel(desc).value|] == EncodeLabel(desc).value
    ensures Describes(option, desc, 6 + |EncodeLabel(desc).value| - 2)
  {
    ZeroUnitIffNul(desc);
    var bytes := Encode(desc).value;
    var end := 6 + |bytes|;
    var stored := option[6..end + 2];
    assert stored == bytes + [0, 0];
    assert option[6..end] == stored[..|bytes|] == bytes;
    assert option[end] == stored[|bytes|] == 0 && option[end + 1] == stored[|bytes| + 1] == 0;
    NoZeroUnits(desc, bytes, option);
  }

  lemma DescribesOnce(option: Bytes, desc: Text, end: nat, other: Text, otherEnd: nat)
    requires Describes(option, desc, end) && Describes(option, other, otherEnd)
    ensures desc == other && end == otherEnd
  {
    if end < otherEnd {
      assert !ZeroUnit(option, end);
    } else if otherEnd < end {
      assert !ZeroUnit(option, otherEnd);
    }
    DecodeEncode(desc);
    DecodeEncode(other);
  }

  /** Only one description and end fit a variable. */
  lemma OnlyParse(raw: Bytes, t: Target, desc: Text, end: nat)
    requires |raw| >= 12 && Describes(raw[4..], desc, end)
    ensures Parse(raw, t).Ok? <==> Parse(raw, t) == Ok((desc, end))
  {
    if Parse(raw, t).Ok? {
      ParseAccepts(raw, t, Parse(raw, t).value.0, Parse(raw, t).value.1);
      DescribesOnce(raw[4..], desc, end, Parse(raw, t).value.0, Parse(raw, t).value.1);
    }
  }

  /** Two options with the same header whose descriptions are followed by the same
      bytes are accepted for the same targets. */
  lemma SameTailSameTargets(raw: Bytes, desc: Text, end: nat, other: Bytes, otherDesc: Text, otherEnd: nat, t: Target)
    requires |raw| >= 12 && |other| >= 12
    requires Describes(raw[4..], desc, end) && Describes(other[4..], otherDesc, otherEnd)
    requires raw[4..][..6] == other[4..][..6]
    requires raw[4..][end + 2..] == other[4..][otherEnd + 2..]
    ensures UnitAt(raw[4..], 4) == UnitAt(other[4..], 4)
    ensures Accepts(raw, t, desc, end) <==> Accepts(other, t, otherDesc, otherEnd)
  {
    assert raw[4..][4] == raw[4..][..6][4] && raw[4..][5] == raw[4..][..6][5];
    assert other[4..][4] == other[4..][..6][4] && other[4..][5] == other[4..][..6][5];
  }

  lemma SameTailParses(raw: Bytes, desc: Text, end: nat, other: Bytes, otherDesc: Text, otherEnd: nat, t: Target)
    requires |raw| >= 12 && |other| >= 12
    requires Describes(raw[4..], desc, end) && Describes(other[4..], otherDesc, otherEnd)
    requires raw[4..][..6] == other[4..][..6]
    requires raw[4..][end + 2..] == other[4..][otherEnd + 2..]
    ensures Parse(raw, t) == Ok((desc, end)) <==> Parse(other, t) == Ok((otherDesc, otherEnd))
    ensures Parse(raw, t).Ok? <==> Parse(raw, t) == Ok((desc, end))
    ensures Parse(other, t).Ok? <==> Parse(other, t) == Ok((otherDesc, otherEnd))
  {
    ParseAccepts(raw, t, desc, end);
    ParseAccepts(other, t, otherDesc, otherEnd);
    SameTailSameTargets(raw, desc, end, other, otherDesc, otherEnd, t);
    OnlyParse(raw, t, desc, end);
    OnlyParse(other, t, otherDesc, otherEnd);
  }

  /** The relabelled variable reads back exactly the new label, ending where the
      new description ends.  Everything but the description is kept: the
      attributes, the header, the path list and the optional data behind it; and
      the variable is accepted for any other partition and loader exactly when
      the original was. */
  lemma RelabelParses(original: Bytes, t: Target, was: Text, end: nat, desc: Text, u: Target)
    requires Parse(original, t) == Ok((was, end))
    requires EncodeLabel(desc).Ok?
    ensures 4 + end + 2 <= |original| && 6 <= end
    ensures var replacement := EncodeLabel(desc).value;
            var updated := Splice(original, replacement, end);
            var newEnd := 6 + |replacement| - 2;
            && Parse(updated, t) == Ok((desc, newEnd))
            && (Parse(updated, u).Ok? <==> Parse(original, u).Ok?)
            && updated[..4] == original[..4]
            && updated[4..][..6] == original[4..][..6]
            && updated[4..][newEnd + 2..] == original[4..][end + 2..]
            && |updated| == |original| + |replacement| - (end + 2 - 6)
  {
    ParseAccepts(original, t, was, end);
    var replacement := EncodeLabel(desc).value;
    var updated := Splice(original, replacement, end);
    var newEnd := 6 + |replacement| - 2;
    SpliceLayout(original, replacement, end);
    LabelDescribes(desc, updated[4..]);
    assert |original[4..][end + 2..]| >= 4;
    SameTailParses(original, was, end, updated, desc, newEnd, t);
    SameTailParses(original, was, end, updated, desc, newEnd, u);
  }

  /** Relabelling is undone by relabelling with the label that was read. */
  lemma RelabelUndone(original: Bytes, t: Target, was: Text, end: nat, desc: Text)
    requires Parse(original, t) == Ok((was, end))
    requires EncodeLabel(desc).Ok? && EncodeLabel(was).Ok?
    ensures 4 + end + 2 <= |original| && 6 <= end
    ensures var replacement := EncodeLabel(desc).value;
            var updated := Splice(original, replacement, end);
            && 4 + 6 + |replacement| <= |updated| && |replacement| >= 2
            && Splice(updated, EncodeLabel(was).value, 6 + |replacement| - 2) == original
  {
    ParseAccepts(original, t, was, end);
    var replacement := EncodeLabel(desc).value;
    var updated := Splice(original, replacement, end);
    SpliceLayout(original, replacement, end);
    DescriptionRestored(original, end, EncodeLabel(was).value);
  }

  lemma DescriptionRestored(original: Bytes, end: nat, description: Bytes)
    requires 4 + end + 2 <= |original| && 6 <= end
    requires ZeroUnit(original[4..], end) && description == original[4..][6..end] + [0, 0]
    ensures original[..4] + original[4..][..6] + description + original[4..][end + 2..] == original
  {
    var option := original[4..];
    assert description == option[6..end + 2];
    assert option[..6] + option[6..end + 2] + option[end + 2..] == option;
    assert original[..4] + option == original;
  }
}
