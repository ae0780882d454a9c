/** UTF-16LE, as the label updater uses it: the strict encoder and decoder of
    sections 2.1 and 2.2 of RFC 2781.  A text is a sequence of code points; it
    may hold lone surrogates, which the strict encoder refuses. */
module Utf16 {
  import opened Outcomes

  type Byte = b: int | 0 <= b < 0x100
  type CodePoint = c: int | 0 <= c < 0x11_0000

  predicate IsSurrogate(c: int) { 0xD800 <= c < 0xE000 }

  predicate IsScalarText(s: seq<CodePoint>) {
    forall i | 0 <= i < |s| :: !IsSurrogate(s[i])
  }

  function UnitBytes(u: int): (b: seq<Byte>)
    requires 0 <= u < 0x1_0000
    ensures |b| == 2
  {
    [u % 0x100, u / 0x100]
  }

  /** The 16-bit unit at offset k. */
  function UnitAt(b: seq<Byte>, k: nat): int
    requires k + 2 <= |b|
  {
    (b[k] as int) + 0x100 * (b[k + 1] as int)
  }

  function EncodePoint(c: CodePoint): (b: seq<Byte>)
    ensures |b| == 2 || |b| == 4
  {
    if c < 0x1_0000 then UnitBytes(c)
    else UnitBytes(0xD800 + (c - 0x1_0000) / 0x400) + UnitBytes(0xDC00 + (c - 0x1_0000) % 0x400)
  }

  function Encode(s: seq<CodePoint>): Option<seq<Byte>> {
    if s == [] then Some([])
    else if IsSurrogate(s[0]) then None
    else match Encode(s[1..])
      case None => None
      case Some(rest) => Some(EncodePoint(s[0]) + rest)
  }

  /** Strict decoding: an odd length, a lone low surrogate or an unpaired high
      surrogate is an error. */
  function Decode(b: seq<Byte>): Option<seq<CodePoint>> {
    if b == [] then Some([])
    else if |b| < 2 then None
    else
      var u := UnitAt(b, 0);
      if !IsSurrogate(u) then Prepend(u, Decode(b[2..]))
      else if u >= 0xDC00 || |b| < 4 then None
      else
        var v := UnitAt(b, 2);
        if 0xDC00 <= v < 0xE000 then
          Prepend(0x1_0000 + (u - 0xD800) * 0x400 + (v - 0xDC00), Decode(b[4..]))
        else None
  }

  function Prepend(c: CodePoint, rest: Option<seq<CodePoint>>): Option<seq<CodePoint>> {
    match rest
    case None => None
    case Some(s) => Some([c] + s)
  }

  /** Encoding fails exactly on texts with a lone surrogate. */
  lemma {:induction false} EncodeDefined(s: seq<CodePoint>)
    ensures Encode(s).Some? <==> IsScalarText(s)
  {
    if s != [] {
      EncodeDefined(s[1..]);
      assert IsScalarText(s) <==> !IsSurrogate(s[0]) && IsScalarText(s[1..]) by {
        assert forall i | 1 <= i < |s| :: s[i] == s[1..][i - 1];
      }
    }
  }

  /** What was encoded decodes to itself, surrogate pairs included. */
  lemma {:induction false} DecodeEncode(s: seq<CodePoint>)
    requires Encode(s).Some?
    ensures Decode(Encode(s).value) == Some(s)
  {
    if s != [] {
      var head, rest := EncodePoint(s[0]), Encode(s[1..]).value;
      var b := head + rest;
      DecodeEncode(s[1..]);
      assert b[|head|..] == rest;
      assert [s[0]] + s[1..] == s;
    }
  }

  /** Strict decoding accepts only canonical bytes: what decodes encodes back. */
  lemma {:induction false} EncodeDecode(b: seq<Byte>)
    requires Decode(b).Some?
    ensures Encode(Decode(b).value) == Some(b)
  {
    if b != [] {
      var s := Decode(b).value;
      var u := UnitAt(b, 0);
      assert s[1..] == if IsSurrogate(u) then Decode(b[4..]).value else Decode(b[2..]).value;
      if !IsSurrogate(u) {
        EncodeDecode(b[2..]);
        assert UnitBytes(u) == b[..2];
        assert b[..2] + b[2..] == b;
      } else {
        EncodeDecode(b[4..]);
        assert EncodePoint(s[0]) == b[..4];
        assert b[..4] + b[4..] == b;
      }
    }
  }

  /** An encoding is whole units, and an aligned unit of it is zero exactly when
      the text holds a NUL. */
  lemma {:induction false} ZeroUnitIffNul(s: seq<CodePoint>)
    requires Encode(s).Some?
    ensures |Encode(s).value| % 2 == 0
    ensures |Encode(s).value| >= 2 * |s|
    ensures HasZeroUnit(Encode(s).value) <==> 0 in s
  {
    if s != [] {
      var head, rest := EncodePoint(s[0]), Encode(s[1..]).value;
      ZeroUnitIffNul(s[1..]);
      HeadZeroIff(s[0]);
      ZeroUnitPlus(head, rest);
      assert Encode(s).value == head + rest;
      assert 0 in s <==> s[0] == 0 || 0 in s[1..];
    }
  }

  ghost predicate HasZeroUnit(b: seq<Byte>) {
    exists k: nat {:trigger UnitAt(b, 2 * k)} :: 2 * k + 2 <= |b| && UnitAt(b, 2 * k) == 0
  }

  lemma HeadZeroIff(c: CodePoint)
    ensures HasZeroUnit(EncodePoint(c)) <==> c == 0
  {
    var head := EncodePoint(c);
    assert UnitAt(head, 2 * 0) == 0 <==> c == 0;
    assert |head| == 4 ==> UnitAt(head, 2 * 1) != 0;
    forall k: nat | 2 * k + 2 <= |head| ensures k == 0 || (k == 1 && |head| == 4) {
    }
  }

  /** The units of two pieces of whole units. */
  lemma ZeroUnitPlus(a: seq<Byte>, b: seq<Byte>)
    requires |a| % 2 == 0
    ensures HasZeroUnit(a + b) <==> HasZeroUnit(a) || HasZeroUnit(b)
  {
    var n: nat := |a| / 2;
    assert |a| == 2 * n;
    if HasZeroUnit(a + b) {
      var k: nat :| 2 * k + 2 <= |a + b| && UnitAt(a + b, 2 * k) == 0;
      if k < n {
        assert UnitAt(a, 2 * k) == 0;
      } else {
        var j: nat := k - n;
        assert UnitAt(b, 2 * j) == 0;
      }
    }
    if HasZeroUnit(a) {
      var k: nat :| 2 * k + 2 <= |a| && UnitAt(a, 2 * k) == 0;
      assert UnitAt(a + b, 2 * k) == 0;
    }
    if HasZeroUnit(b) {
      var k: nat :| 2 * k + 2 <= |b| && UnitAt(b, 2 * k) == 0;
      var j: nat := k + n;
      assert UnitAt(a + b, 2 * j) == 0;
    }
  }

  // ----- The layout -----------------------------------------------------------

  /** The low byte of a unit stands first; a code point beyond the first plane is a pair of
      units, its upper ten bits behind 0xD800 in the first one and its lower ten bits behind
      0xDC00 in the second. */
  lemma PointLayout(c: CodePoint)
    ensures var b := EncodePoint(c);
            if c < 0x1_0000 then b == [c % 0x100, c / 0x100]
            else exists high: int, low: int ::
              && c == 0x1_0000 + high * 0x400 + low && 0 <= high < 0x400 && 0 <= low < 0x400
              && b == [high % 0x100, 0xD8 + high / 0x100, low % 0x100, 0xDC + low / 0x100]
  {
    if c >= 0x1_0000 {
      var high, low := (c - 0x1_0000) / 0x400, (c - 0x1_0000) % 0x400;
      assert c == 0x1_0000 + high * 0x400 + low;
      assert EncodePoint(c) == [high % 0x100, 0xD8 + high / 0x100, low % 0x100, 0xDC + low / 0x100];
    }
  }

  /** The character of section 5 of RFC 2781. */
  lemma PairExample()
    ensures Encode([0x1_2345]) == Some([0x08, 0xD8, 0x45, 0xDF])
    ensures Decode([0x08, 0xD8, 0x45, 0xDF]) == Some([0x1_2345])
  {
    var s: seq<CodePoint> := [0x1_2345];
    assert s[1..] == [] && Encode([]) == Some([]);
    var b: seq<Byte> := [0x08, 0xD8, 0x45, 0xDF];
    assert EncodePoint(0x1_2345) == b && b + [] == b;
    DecodeEncode(s);
  }
}
