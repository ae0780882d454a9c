/** The EFI_LOAD_OPTION that one Boot#### variable holds: the parser of
    scripts/boot-repair-efi-label.py.  The layout is that
    of section 3.1.3 of the UEFI Specification behind efivarfs' four attribute
    bytes; device path nodes are those of sections 10.3.5.1 and 10.3.5.4. */
module LoadOption {
  import opened Outcomes
  import opened Utf16

  type Bytes = seq<Byte>
  type Text = seq<CodePoint>

  datatype Fault =
    | TooShort | NoDescription | BadDescription | PathListOutside
    | BadNodeLength | BadFilePath | WrongPartition | WrongLoader
    | LabelRefused | LabelNotUtf16

  /** What the caller selected: the partition GUID in its on-disk byte order and
      the loader path.  Case folding is a parameter. */
  datatype Target = Target(guid: Bytes, loader: Text, casefold: Text -> Text)

  const SLASH: CodePoint := 0x2F
  const BACKSLASH: CodePoint := 0x5C
  const MAX_LABEL := 240

  // ----- Path normalisation ---------------------------------------------------

  function Backslashed(s: Text): Text {
    seq(|s|, i requires 0 <= i < |s| => if s[i] == SLASH then BACKSLASH else s[i])
  }

  function DropLeading(s: Text): Text {
    if s != [] && s[0] == BACKSLASH then DropLeading(s[1..]) else s
  }

  function NormPath(t: Target, s: Text): Text {
    DropLeading(t.casefold(Backslashed(s)))
  }

  // ----- The description ------------------------------------------------------

  predicate ZeroUnit(option: Bytes, k: int) {
    0 <= k && k + 2 <= |option| && option[k] == 0 && option[k + 1] == 0
  }

  /** The description occupies [6, end): end is the first aligned zero unit. */
  ghost predicate DescriptionEndsAt(option: Bytes, end: nat) {
    && 6 <= end && end % 2 == 0
    && ZeroUnit(option, end)
    && forall k | 6 <= k < end && k % 2 == 0 :: !ZeroUnit(option, k)
  }

  function ScanFrom(option: Bytes, pos: nat): (r: Option<nat>)
    ensures r.Some? ==> pos <= r.value && r.value + 2 <= |option|
    decreases |option| - pos
  {
    if pos + 1 >= |option| then None
    else if ZeroUnit(option, pos) then Some(pos)
    else ScanFrom(option, pos + 2)
  }

  lemma {:induction false} ScanFinds(option: Bytes, pos: nat)
    requires 6 <= pos && pos % 2 == 0
    requires forall k | 6 <= k < pos && k % 2 == 0 :: !ZeroUnit(option, k)
    ensures forall end: nat :: ScanFrom(option, pos) == Some(end) <==> DescriptionEndsAt(option, end)
    decreases |option| - pos
  {
    if pos + 1 < |option| && !ZeroUnit(option, pos) {
      ScanFinds(option, pos + 2);
    }
  }

  // ----- The device path list -------------------------------------------------

  predicate IsEndNode(node: Bytes)
    requires |node| >= 4
  {
    node[0] == 0x7F && node[1] == 0xFF
  }

  /** Whether a node is the selected partition, and whether it is the loader. */
  function Inspect(node: Bytes, t: Target): Result<(bool, bool), Fault>
    requires |node| >= 4
  {
    if node[0] == 0x04 && node[1] == 0x01 && |node| >= 42 then
      Ok((node[41] == 0x02 && node[40] == 0x02 && node[24..40] == t.guid, false))
    else if node[0] == 0x04 && node[1] == 0x04 && |node| >= 6 then
      match Decode(node[4..|node| - 2])
      case None => Err(BadFilePath)
      case Some(path) => Ok((false, NormPath(t, path) == NormPath(t, t.loader)))
    else Ok((false, false))
  }

  /** The walk over a whole list: which of the two marks it finds. */
  function Walk(list: Bytes, t: Target, guid: bool, loader: bool): Result<(bool, bool), Fault>
    decreases |list|
  {
    if |list| < 4 then Ok((guid, loader))
    else
      var length := UnitAt(list, 2);
      if length < 4 || length > |list| then Err(BadNodeLength)
      else match Inspect(list[..length], t)
        case Err(e) => Err(e)
        case Ok(found) =>
          if IsEndNode(list[..length]) then Ok((guid || found.0, loader || found.1))
          else Walk(list[length..], t, guid || found.0, loader || found.1)
  }

  /** The list cut into its nodes, up to the end node if there is one. */
  function Nodes(list: Bytes): (r: Option<seq<Bytes>>)
    ensures r.Some? ==> forall n | n in r.value :: |n| >= 4
    decreases |list|
  {
    if |list| < 4 then Some([])
    else
      var length := UnitAt(list, 2);
      if length < 4 || length > |list| then None
      else if IsEndNode(list[..length]) then Some([list[..length]])
      else match Nodes(list[length..])
        case None => None
        case Some(rest) => Some([list[..length]] + rest)
  }

  function Flatten(nodes: seq<Bytes>): Bytes {
    if nodes == [] then [] else nodes[0] + Flatten(nodes[1..])
  }

  // ----- What a node names, told on its bytes ---------------------------------

  /** A hard drive node with a GPT signature: that of the partition. */
  ghost predicate IsPartition(node: Bytes, guid: Bytes) {
    |node| >= 42 && node[..2] == [0x04, 0x01] && node[24..40] == guid && node[40..42] == [0x02, 0x02]
  }

  predicate IsFileNode(node: Bytes) {
    |node| >= 6 && node[..2] == [0x04, 0x04]
  }

  /** A file path node that holds the path, and two bytes behind it. */
  ghost predicate HoldsPath(node: Bytes, path: Text) {
    IsFileNode(node) && Encode(path) == Some(node[4..|node| - 2])
  }

  /** The path with backslashes for slashes. */
  ghost predicate Turned(path: Text, turned: Text) {
    |turned| == |path| && forall i | 0 <= i < |path| :: turned[i] == if path[i] == SLASH then BACKSLASH else path[i]
  }

  ghost function Backslashes(n: nat): Text { seq(n, _ => BACKSLASH) }

  /** What is left of a path, with backslashes and folded, without the backslashes in front. */
  ghost predicate NormalForm(t: Target, path: Text, form: Text) {
    && (form == [] || form[0] != BACKSLASH)
    && exists turned, n: nat :: Turned(path, turned) && t.casefold(turned) == Backslashes(n) + form
  }

  ghost predicate SamePath(t: Target, a: Text, b: Text) {
    exists form :: NormalForm(t, a, form) && NormalForm(t, b, form)
  }

  /** A file path node of the loader. */
  ghost predicate IsLoader(node: Bytes, t: Target) {
    exists path :: HoldsPath(node, path) && SamePath(t, path, t.loader)
  }

  /** No file path node, or one that holds a path. */
  ghost predicate IsReadable(node: Bytes) {
    IsFileNode(node) ==> exists path :: HoldsPath(node, path)
  }

  lemma {:induction false} DropBackslashes(n: nat, form: Text)
    requires form == [] || form[0] != BACKSLASH
    ensures DropLeading(Backslashes(n) + form) == form
    decreases n
  {
    if n == 0 {
      assert Backslashes(0) + form == form;
    } else {
      assert (Backslashes(n) + form)[1..] == Backslashes(n - 1) + form;
      DropBackslashes(n - 1, form);
    }
  }

  lemma {:induction false} DroppedBackslashes(s: Text) returns (n: nat)
    ensures s == Backslashes(n) + DropLeading(s) && (DropLeading(s) == [] || DropLeading(s)[0] != BACKSLASH)
  {
    if s != [] && s[0] == BACKSLASH {
      var m := DroppedBackslashes(s[1..]);
      n := m + 1;
      assert Backslashes(n) == [BACKSLASH] + Backslashes(m);
      assert s == [s[0]] + s[1..];
    } else {
      n := 0;
    }
  }

  lemma NormPathIs(t: Target, path: Text, form: Text)
    ensures NormalForm(t, path, form) <==> NormPath(t, path) == form
  {
    var folded := t.casefold(Backslashed(path));
    if NormalForm(t, path, form) {
      var turned, n: nat :| Turned(path, turned) && t.casefold(turned) == Backslashes(n) + form;
      assert turned == Backslashed(path);
      DropBackslashes(n, form);
    }
    if NormPath(t, path) == form {
      var n := DroppedBackslashes(folded);
      assert Turned(path, Backslashed(path));
    }
  }

  lemma SamePathIff(t: Target, a: Text, b: Text)
    ensures SamePath(t, a, b) <==> NormPath(t, a) == NormPath(t, b)
  {
    NormPathIs(t, a, NormPath(t, a));
    NormPathIs(t, b, NormPath(t, a));
    if form :| NormalForm(t, a, form) && NormalForm(t, b, form) {
      NormPathIs(t, a, form);
      NormPathIs(t, b, form);
    }
  }

  lemma HoldsDecoded(node: Bytes, path: Text)
    requires IsFileNode(node)
    ensures HoldsPath(node, path) <==> Decode(node[4..|node| - 2]) == Some(path)
  {
    var bytes := node[4..|node| - 2];
    if Decode(bytes).Some? { EncodeDecode(bytes); }
    if Encode(path) == Some(bytes) { DecodeEncode(path); }
  }

  lemma InspectFile(node: Bytes, t: Target)
    requires IsFileNode(node)
    ensures Inspect(node, t).Ok? <==> IsReadable(node)
    ensures Inspect(node, t).Ok? ==> Inspect(node, t).value == (false, IsLoader(node, t))
  {
    var path := Decode(node[4..|node| - 2]);
    assert node[0] == node[..2][0] && node[1] == node[..2][1];
    if path.Some? {
      HoldsDecoded(node, path.value);
      SamePathIff(t, path.value, t.loader);
    }
    forall other | HoldsPath(node, other) ensures path == Some(other) {
      HoldsDecoded(node, other);
    }
  }

  /** The inspection of a node finds exactly what its bytes name. */
  lemma InspectIff(node: Bytes, t: Target)
    requires |node| >= 4
    ensures Inspect(node, t).Ok? <==> IsReadable(node)
    ensures Inspect(node, t).Ok? ==> Inspect(node, t).value == (IsPartition(node, t.guid), IsLoader(node, t))
  {
    assert node[..2] == [node[0], node[1]];
    if IsFileNode(node) {
      InspectFile(node, t);
    } else if |node| >= 42 {
      assert node[40..42] == [node[40], node[41]];
    }
  }

  ghost predicate HasGuid(nodes: seq<Bytes>, t: Target) {
    exists n | n in nodes :: IsPartition(n, t.guid)
  }

  ghost predicate HasLoader(nodes: seq<Bytes>, t: Target) {
    exists n | n in nodes :: IsLoader(n, t)
  }

  ghost predicate Readable(nodes: seq<Bytes>) {
    forall n | n in nodes :: IsReadable(n)
  }

  /** The nodes tile the list from its first byte and never leave it; what is
      left after them is shorter than a node header, or follows an end node. */
  lemma {:induction false} NodesTileList(list: Bytes)
    requires Nodes(list).Some?
    ensures Flatten(Nodes(list).value) <= list
    ensures forall n | n in Nodes(list).value :: UnitAt(n, 2) == |n|
    ensures var nodes := Nodes(list).value;
            || |list| - |Flatten(nodes)| < 4
            || (nodes != [] && nodes[|nodes| - 1][..2] == [0x7F, 0xFF])
    ensures var nodes := Nodes(list).value;
            forall i | 0 <= i < |nodes| - 1 :: nodes[i][..2] != [0x7F, 0xFF]
    decreases |list|
  {
    if |list| >= 4 {
      var length := UnitAt(list, 2);
      var node, behind := list[..length], list[length..];
      assert list == node + behind;
      assert node[..2] == [list[0], list[1]];
      assert UnitAt(node, 2) == length;
      if IsEndNode(node) {
        FlattenCons(node, []);
      } else {
        NodesTileList(behind);
        FlattenCons(node, Nodes(behind).value);
      }
    }
  }

  lemma FlattenCons(node: Bytes, rest: seq<Bytes>)
    ensures Flatten([node] + rest) == node + Flatten(rest)
  {
    assert ([node] + rest)[1..] == rest;
  }

  /** A walk succeeds exactly when every node of the list is well formed and
      readable, and it reports the marks that some node carries. */
  lemma {:induction false} WalkMeaning(list: Bytes, t: Target, guid: bool, loader: bool)
    ensures Walk(list, t, guid, loader).Ok? <==> Nodes(list).Some? && Readable(Nodes(list).value)
    ensures Walk(list, t, guid, loader).Ok? ==>
              Walk(list, t, guid, loader).value
              == (guid || HasGuid(Nodes(list).value, t), loader || HasLoader(Nodes(list).value, t))
    decreases |list|
  {
    if |list| >= 4 {
      var length := UnitAt(list, 2);
      if 4 <= length <= |list| {
        var node := list[..length];
        InspectIff(node, t);
        if Inspect(node, t).Ok? && !IsEndNode(node) {
          var found := Inspect(node, t).value;
          WalkMeaning(list[length..], t, guid || found.0, loader || found.1);
        }
        if Nodes(list).Some? {
          var nodes := Nodes(list).value;
          assert nodes[0] == node;
          assert !IsEndNode(node) ==> nodes[1..] == Nodes(list[length..]).value;
          assert forall n :: n in nodes <==> n == node || n in nodes[1..];
        }
      }
    }
  }

  // ----- parse_option ---------------------------------------------------------

  /** The path list that the option's own length field delimits behind the
      description. */
  function PathList(option: Bytes, end: nat): Bytes
    requires |option| >= 6 && end + 2 + UnitAt(option, 4) <= |option|
  {
    option[end + 2..][..UnitAt(option, 4)]
  }

  /** The label and its end offset, or the first fault in the parser's order. */
  function Parse(raw: Bytes, t: Target): Result<(Text, nat), Fault> {
    if |raw| < 12 then Err(TooShort)
    else
      var option := raw[4..];
      match ScanFrom(option, 6)
      case None => Err(NoDescription)
      case Some(end) =>
        if end == 6 then Err(NoDescription)
        else if Decode(option[6..end]).None? then Err(BadDescription)
        else if end + 2 + UnitAt(option, 4) > |option| || UnitAt(option, 4) < 4 then Err(PathListOutside)
        else match Walk(PathList(option, end), t, false, false)
          case Err(e) => Err(e)
          case Ok(found) =>
            if !found.0 then Err(WrongPartition)
            else if !found.1 then Err(WrongLoader)
            else Ok((Decode(option[6..end]).value, end))
  }

  /** The description scan of parse_option. */
  method ScanDescription(option: Bytes) returns (end: Option<nat>)
    ensures end == ScanFrom(option, 6)
  {
    var pos := 6;
    while pos + 1 < |option|
      invariant 6 <= pos
      invariant ScanFrom(option, 6) == ScanFrom(option, pos)
      decreases |option| - pos
    {
      if option[pos..pos + 2] == [0, 0] {
        assert option[pos..pos + 2][0] == option[pos] && option[pos..pos + 2][1] == option[pos + 1];
        return Some(pos);
      }
      assert !ZeroUnit(option, pos);
      pos := pos + 2;
    }
    return None;
  }

  /** What the loop body finds out about one node. */
  method InspectNode(node: Bytes, t: Target) returns (found: Result<(bool, bool), Fault>)
    requires |node| >= 4
    ensures found == Inspect(node, t)
  {
    var foundGuid, foundLoader := false, false;
    if node[0] == 0x04 && node[1] == 0x01 && |node| >= 42 {
      if node[41] == 0x02 && node[40] == 0x02 {
        if node[24..40] == t.guid {
          foundGuid := true;
        }
      }
    } else if node[0] == 0x04 && node[1] == 0x04 && |node| >= 6 {
      var path := Decode(node[4..|node| - 2]);
      if path.None? {
        return Err(BadFilePath);
      }
      if NormPath(t, path.value) == NormPath(t, t.loader) {
        foundLoader := true;
      }
    }
    return Ok((foundGuid, foundLoader));
  }

  /** A walk over a list that stands in a larger text: a bad length ends it. */
  lemma WalkBadNode(option: Bytes, pos: nat, end: nat, t: Target, guid: bool, loader: bool, length: nat)
    requires pos + 4 <= end <= |option| && length == UnitAt(option, pos + 2)
    requires length < 4 || pos + length > end
    ensures Walk(option[pos..end], t, guid, loader) == Err(BadNodeLength)
  {
    assert UnitAt(option[pos..end], 2) == length;
  }

  /** The same walk one node further. */
  lemma WalkNode(option: Bytes, pos: nat, end: nat, t: Target, guid: bool, loader: bool, node: Bytes,
      found: Result<(bool, bool), Fault>)
    requires pos + 4 <= end <= |option| && |node| == UnitAt(option, pos + 2) >= 4
    requires pos + |node| <= end && node == option[pos..pos + |node|] && found == Inspect(node, t)
    ensures Walk(option[pos..end], t, guid, loader)
            == match found
               case Err(e) => Err(e)
               case Ok((isGuid, isLoader)) =>
                 if IsEndNode(node) then Ok((guid || isGuid, loader || isLoader))
                 else Walk(option[pos + |node|..end], t, guid || isGuid, loader || isLoader)
  {
    var list := option[pos..end];
    assert UnitAt(list, 2) == |node|;
    assert list[..|node|] == node;
    assert list[|node|..] == option[pos + |node|..end];
  }

  /** The loop body on the node at pos: the marks found so far, and what the walk from
      there comes to. */
  method InspectAt(option: Bytes, pos: nat, end: nat, t: Target, node: Bytes, guid: bool, loader: bool)
    returns (fault: Option<Fault>, foundGuid: bool, foundLoader: bool)
    requires pos + 4 <= end <= |option| && |node| == UnitAt(option, pos + 2) >= 4
    requires pos + |node| <= end && node == option[pos..pos + |node|]
    ensures fault.Some? ==> Walk(option[pos..end], t, guid, loader) == Err(fault.value)
    ensures fault.None? ==>
              Walk(option[pos..end], t, guid, loader)
              == if IsEndNode(node) then Ok((foundGuid, foundLoader))
                 else Walk(option[pos + |node|..end], t, foundGuid, foundLoader)
  {
    foundGuid, foundLoader := guid, loader;
    var found := InspectNode(node, t);
    WalkNode(option, pos, end, t, guid, loader, node, found);
    match found
    case Err(e) => fault := Some(e);
    case Ok((isGuid, isLoader)) =>
      fault := None;
      foundGuid, foundLoader := foundGuid || isGuid, foundLoader || isLoader;
  }

  lemma ListEnds(option: Bytes, pos: nat, end: nat, t: Target, guid: bool, loader: bool)
    requires pos <= end <= |option| && pos + 4 > end
    ensures Walk(option[pos..end], t, guid, loader) == Ok((guid, loader))
  {
  }

  /** The node walk of parse_option: its verdict is that of the list's own bytes,
      wherever the list stands. */
  method WalkNodes(option: Bytes, pathStart: nat, pathEnd: nat, t: Target) returns (r: Result<(bool, bool), Fault>)
    requires pathStart <= pathEnd <= |option|
    ensures r == Walk(option[pathStart..pathEnd], t, false, false)
  {
    ghost var verdict := Walk(option[pathStart..pathEnd], t, false, false);
    var foundGuid, foundLoader := false, false;
    var pos := pathStart;
    while pos + 4 <= pathEnd
      invariant pathStart <= pos <= pathEnd
      invariant verdict == Walk(option[pos..pathEnd], t, foundGuid, foundLoader)
      decreases pathEnd - pos
    {
      var nodeLength := UnitAt(option, pos + 2);
      if nodeLength < 4 || pos + nodeLength > pathEnd {
        WalkBadNode(option, pos, pathEnd, t, foundGuid, foundLoader, nodeLength);
        return Err(BadNodeLength);
      }
      var node := option[pos..pos + nodeLength];
      var fault: Option<Fault>;
      fault, foundGuid, foundLoader := InspectAt(option, pos, pathEnd, t, node, foundGuid, foundLoader);
      if fault.Some? {
        return Err(fault.value);
      }
      if node[0] == 0x7F && node[1] == 0xFF {
        return Ok((foundGuid, foundLoader));
      }
      pos := pos + nodeLength;
    }
    ListEnds(option, pos, pathEnd, t, foundGuid, foundLoader);
    return Ok((foundGuid, foundLoader));
  }

  /** parse_option. */
  method ParseOption(raw: Bytes, t: Target) returns (r: Result<(Text, nat), Fault>)
    ensures r == Parse(raw, t)
  {
    if |raw| < 12 {
      return Err(TooShort);
    }
    var option := raw[4..];
    var pathLength := UnitAt(option, 4);
    var end := ScanDescription(option);
    if end.None? || end.value == 6 {
      return Err(NoDescription);
    }
    var oldLabel := Decode(option[6..end.value]);
    if oldLabel.None? {
      return Err(BadDescription);
    }
    var pathStart := end.value + 2;
    var pathEnd := pathStart + pathLength;
    if pathEnd > |option| || pathLength < 4 {
      return Err(PathListOutside);
    }
    assert PathList(option, end.value) == option[pathStart..pathEnd];
    var found := WalkNodes(option, pathStart, pathEnd, t);
    match found
    case Err(fault) => return Err(fault);
    case Ok((foundGuid, foundLoader)) =>
      if !foundGuid {
        return Err(WrongPartition);
      }
      if !foundLoader {
        return Err(WrongLoader);
      }
      return Ok((oldLabel.value, end.value));
  }

  /** The description is the canonical encoding of a text, up to the first aligned
      zero unit. */
  ghost predicate Describes(option: Bytes, desc: Text, end: nat) {
    && 6 < end
    && DescriptionEndsAt(option, end)
    && Encode(desc) == Some(option[6..end])
  }

  /** A path list that can be read to its end and names the target. */
  ghost predicate Names(list: Bytes, t: Target) {
    && Nodes(list).Some?
    && Readable(Nodes(list).value)
    && HasGuid(Nodes(list).value, t)
    && HasLoader(Nodes(list).value, t)
  }

  /** What acceptance means, without the scan or the walk: the option describes
      the label, and the path list behind the description lies inside the
      variable and names both the partition and the loader. */
  ghost predicate Accepts(raw: Bytes, t: Target, desc: Text, end: nat) {
    && |raw| >= 12
    && Describes(raw[4..], desc, end)
    && UnitAt(raw[4..], 4) >= 4
    && end + 2 + UnitAt(raw[4..], 4) <= |raw[4..]|
    && Names(PathList(raw[4..], end), t)
  }

  lemma ParseAccepts(raw: Bytes, t: Target, desc: Text, end: nat)
    ensures Parse(raw, t) == Ok((desc, end)) <==> Accepts(raw, t, desc, end)
  {
    if |raw| >= 12 {
      var option := raw[4..];
      ScanFinds(option, 6);
      if ScanFrom(option, 6) == Some(end) && end > 6 {
        var bytes := option[6..end];
        if Decode(bytes).Some? { EncodeDecode(bytes); }
        if Encode(desc) == Some(bytes) { DecodeEncode(desc); }
        if end + 2 + UnitAt(option, 4) <= |option| {
          WalkMeaning(PathList(option, end), t, false, false);
        }
      }
    }
  }

  // ----- The refusals ---------------------------------------------------------

  /** All that is asked of a variable but its target. */
  ghost predicate Listed(raw: Bytes, desc: Text, end: nat) {
    && |raw| >= 12
    && Describes(raw[4..], desc, end)
    && UnitAt(raw[4..], 4) >= 4
    && end + 2 + UnitAt(raw[4..], 4) <= |raw[4..]|
    && Nodes(PathList(raw[4..], end)).Some?
    && Readable(Nodes(PathList(raw[4..], end)).value)
  }

  /** A variable that can be read is refused first for its partition, then for its
      loader, and for nothing else. */
  lemma TargetVerdict(raw: Bytes, t: Target, desc: Text, end: nat)
    requires Listed(raw, desc, end)
    ensures var nodes := Nodes(PathList(raw[4..], end)).value;
            Parse(raw, t) == if !exists n | n in nodes :: IsPartition(n, t.guid) then Err(WrongPartition)
                             else if !exists n | n in nodes :: IsLoader(n, t) then Err(WrongLoader)
                             else Ok((desc, end))
  {
    var option := raw[4..];
    ScanFinds(option, 6);
    DecodeEncode(desc);
    WalkMeaning(PathList(option, end), t, false, false);
  }

  /** And only such a variable is accepted, or refused for its target. */
  lemma VerdictListed(raw: Bytes, t: Target) returns (desc: Text, end: nat)
    requires Parse(raw, t).Ok? || Parse(raw, t) == Err(WrongPartition) || Parse(raw, t) == Err(WrongLoader)
    ensures Listed(raw, desc, end)
  {
    var option := raw[4..];
    ScanFinds(option, 6);
    end := ScanFrom(option, 6).value;
    desc := Decode(option[6..end]).value;
    EncodeDecode(option[6..end]);
    WalkFault(PathList(option, end), t, false, false);
    WalkMeaning(PathList(option, end), t, false, false);
  }

  lemma {:induction false} WalkFault(list: Bytes, t: Target, guid: bool, loader: bool)
    ensures Walk(list, t, guid, loader).Err? ==>
              Walk(list, t, guid, loader).error == BadNodeLength || Walk(list, t, guid, loader).error == BadFilePath
    decreases |list|
  {
    if |list| >= 4 {
      var length := UnitAt(list, 2);
      if 4 <= length <= |list| && Inspect(list[..length], t).Ok? && !IsEndNode(list[..length]) {
        var found := Inspect(list[..length], t).value;
        WalkFault(list[length..], t, guid || found.0, loader || found.1);
      }
    }
  }

  // ----- Paths that are the same ----------------------------------------------

  /** A slash is as good as a backslash. */
  lemma SlashesAlike(t: Target, a: Text, b: Text)
    requires |a| == |b|
    requires forall i | 0 <= i < |a| :: a[i] == b[i] || (a[i] in [SLASH, BACKSLASH] && b[i] in [SLASH, BACKSLASH])
    ensures SamePath(t, a, b)
  {
    assert Backslashed(a) == Backslashed(b);
    SamePathIff(t, a, b);
  }

  /** One in front does not count, if folding leaves it alone. */
  lemma LeadingIgnored(t: Target, c: CodePoint, path: Text)
    requires c == SLASH || c == BACKSLASH
    requires forall s :: t.casefold([BACKSLASH] + s) == [BACKSLASH] + t.casefold(s)
    ensures SamePath(t, [c] + path, path)
  {
    assert Backslashed([c] + path) == [BACKSLASH] + Backslashed(path);
    var folded := t.casefold(Backslashed(path));
    assert ([BACKSLASH] + folded)[1..] == folded;
    SamePathIff(t, [c] + path, path);
  }
}
