/** One boot entry that scripts/boot-repair-efi-label.py accepts, and the two runs on it
    that do not keep what is promised. */
module EfiExample {
  import opened Outcomes
  import opened Utf16
  import opened LoadOption
  import opened EfiSplice
  import opened EfiRelabel

  /** The partition node: its GUID stands in the bytes 24 to 39. */
  function PartitionNode(guid: Bytes): Bytes {
    [0x04, 0x01, 0x2A, 0x00] + seq(20, i => 0) + guid + [0x02, 0x02]
  }

  /** The file node of the path "a". */
  function FileNode(): Bytes { [0x04, 0x04, 0x08, 0x00, 0x61, 0x00, 0x00, 0x00] }

  function EndNode(): Bytes { [0x7F, 0xFF, 0x04, 0x00] }

  function NodeList(guid: Bytes): Bytes { PartitionNode(guid) + (FileNode() + EndNode()) }

  /** The entry "A" for that partition and path. */
  function Entry(guid: Bytes): Bytes {
    [0x07, 0x00, 0x00, 0x00] + ([0x01, 0x00, 0x00, 0x00, 0x36, 0x00] + ([0x41, 0x00, 0x00, 0x00] + NodeList(guid)))
  }

  function GuidOne(): Bytes { seq(16, i requires 0 <= i < 16 => i) }

  function TargetOne(): Target { Target(GuidOne(), [0x61], path => path) }

  lemma NodesMore(node: Bytes, rest: Bytes)
    requires |node| >= 4 && UnitAt(node, 2) == |node| && !IsEndNode(node) && Nodes(rest).Some?
    ensures Nodes(node + rest) == Some([node] + Nodes(rest).value)
  {
    var list := node + rest;
    assert UnitAt(list, 2) == |node|;
    assert list[..|node|] == node && list[|node|..] == rest;
  }

  lemma LastNode()
    ensures Nodes(EndNode()) == Some([EndNode()])
  {
    assert EndNode()[..4] == EndNode();
  }

  lemma ListNodes(guid: Bytes)
    requires |guid| == 16
    ensures Nodes(NodeList(guid)) == Some([PartitionNode(guid), FileNode(), EndNode()])
  {
    LastNode();
    NodesMore(FileNode(), EndNode());
    assert [FileNode()] + [EndNode()] == [FileNode(), EndNode()];
    NodesMore(PartitionNode(guid), FileNode() + EndNode());
    assert [PartitionNode(guid)] + [FileNode(), EndNode()] == [PartitionNode(guid), FileNode(), EndNode()];
  }

  lemma PartitionFound(t: Target)
    requires |t.guid| == 16
    ensures Inspect(PartitionNode(t.guid), t) == Ok((true, false))
  {
    assert PartitionNode(t.guid)[24..40] == t.guid;
  }

  lemma FileFound()
    ensures Inspect(FileNode(), TargetOne()) == Ok((false, true))
  {
    var bytes := FileNode()[4..6];
    assert bytes == [0x61, 0x00] && bytes[2..] == [] && UnitAt(bytes, 0) == 0x61;
    assert Decode([]) == Some([]);
    assert Decode(bytes) == Prepend(0x61, Some([]));
  }

  lemma ListNames()
    ensures Names(NodeList(GuidOne()), TargetOne())
  {
    var t, nodes := TargetOne(), [PartitionNode(GuidOne()), FileNode(), EndNode()];
    ListNodes(GuidOne());
    PartitionFound(t);
    FileFound();
    InspectIff(nodes[0], t);
    InspectIff(nodes[1], t);
    InspectIff(nodes[2], t);
    assert nodes[0] in nodes && nodes[1] in nodes;
  }

  lemma OptionDescribes(list: Bytes, option: Bytes)
    requires option == [0x01, 0x00, 0x00, 0x00, 0x36, 0x00] + ([0x41, 0x00, 0x00, 0x00] + list)
    ensures Describes(option, [0x41], 8) && UnitAt(option, 4) == 0x36 && option[10..] == list
  {
    assert option[6..8] == [0x41, 0x00];
    var text: Text := [0x41];
    assert text[1..] == [] && Encode([]) == Some([]) && EncodePoint(0x41) == [0x41, 0x00];
    assert Encode(text) == Some(EncodePoint(0x41) + []);
    assert EncodePoint(0x41) + [] == option[6..8];
  }

  /** The entry is accepted, with its text. */
  lemma EntryParses()
    ensures Parse(Entry(GuidOne()), TargetOne()) == Ok(([0x41], 8))
  {
    var raw, list := Entry(GuidOne()), NodeList(GuidOne());
    var option := raw[4..];
    assert option == [0x01, 0x00, 0x00, 0x00, 0x36, 0x00] + ([0x41, 0x00, 0x00, 0x00] + list);
    OptionDescribes(list, option);
    assert |list| == 0x36 && list[..0x36] == list;
    ListNames();
    ParseAccepts(raw, TargetOne(), [0x41], 8);
  }

  lemma EntryListed()
    ensures Listed(Entry(GuidOne()), [0x41], 8)
    ensures Nodes(PathList(Entry(GuidOne())[4..], 8)) == Some([PartitionNode(GuidOne()), FileNode(), EndNode()])
  {
    var raw, list := Entry(GuidOne()), NodeList(GuidOne());
    EntryParses();
    ParseAccepts(raw, TargetOne(), [0x41], 8);
    var option := raw[4..];
    assert option == [0x01, 0x00, 0x00, 0x00, 0x36, 0x00] + ([0x41, 0x00, 0x00, 0x00] + list);
    OptionDescribes(list, option);
    assert list[..0x36] == list;
    ListNodes(GuidOne());
  }

  /** Only the file node holds a path, and only the path "a". */
  lemma OnlyPath(node: Bytes, path: Text)
    requires node in [PartitionNode(GuidOne()), FileNode(), EndNode()] && HoldsPath(node, path)
    ensures path == [0x61]
  {
    assert node[..2][1] == node[1] && node[..2][0] == node[0];
    HoldsDecoded(node, path);
    var bytes := FileNode()[4..6];
    assert bytes == [0x61, 0x00] && bytes[2..] == [] && UnitAt(bytes, 0) == 0x61;
    assert Decode([]) == Some([]);
    assert Decode(bytes) == Prepend(0x61, Some([]));
  }

  /** The same entry is refused for the loader "b", and for another partition; a slash
      in front of the loader does not matter. */
  lemma OtherTargets(guid: Bytes)
    requires guid != GuidOne()
    ensures var raw := Entry(GuidOne());
            && Parse(raw, Target(GuidOne(), [0x62], path => path)) == Err(WrongLoader)
            && Parse(raw, Target(guid, [0x61], path => path)) == Err(WrongPartition)
            && Parse(raw, Target(GuidOne(), [0x2F, 0x61], path => path)) == Ok(([0x41], 8))
  {
    EntryListed();
    LoaderB();
    OtherPartition(guid);
    LoaderWithSlash();
  }

  lemma PartitionNamed()
    ensures IsPartition(PartitionNode(GuidOne()), GuidOne())
  {
    var node := PartitionNode(GuidOne());
    assert node[24..40] == GuidOne() && node[..2] == [0x04, 0x01] && node[40..42] == [0x02, 0x02];
  }

  lemma LoaderB()
    ensures Parse(Entry(GuidOne()), Target(GuidOne(), [0x62], path => path)) == Err(WrongLoader)
  {
    var raw, t, nodes := Entry(GuidOne()), Target(GuidOne(), [0x62], path => path),
                         [PartitionNode(GuidOne()), FileNode(), EndNode()];
    EntryListed();
    PartitionNamed();
    forall node | node in nodes ensures !IsLoader(node, t) {
      forall path | HoldsPath(node, path) ensures !SamePath(t, path, t.loader) {
        OnlyPath(node, path);
        DifferentLetters(t);
      }
    }
    TargetVerdict(raw, t, [0x41], 8);
    assert nodes[0] in nodes;
  }

  lemma DifferentLetters(t: Target)
    requires t.casefold == (path => path)
    ensures !SamePath(t, [0x61], [0x62])
  {
    SamePathIff(t, [0x61], [0x62]);
    assert Backslashed([0x61]) == [0x61] && Backslashed([0x62]) == [0x62];
  }

  lemma OtherPartition(guid: Bytes)
    requires guid != GuidOne()
    ensures Parse(Entry(GuidOne()), Target(guid, [0x61], path => path)) == Err(WrongPartition)
  {
    var raw, t, nodes := Entry(GuidOne()), Target(guid, [0x61], path => path),
                         [PartitionNode(GuidOne()), FileNode(), EndNode()];
    EntryListed();
    assert PartitionNode(GuidOne())[24..40] == GuidOne();
    forall node | node in nodes ensures !IsPartition(node, guid) {
    }
    TargetVerdict(raw, t, [0x41], 8);
  }

  lemma LoaderWithSlash()
    ensures Parse(Entry(GuidOne()), Target(GuidOne(), [0x2F, 0x61], path => path)) == Ok(([0x41], 8))
  {
    var raw, t, nodes := Entry(GuidOne()), Target(GuidOne(), [0x2F, 0x61], path => path),
                         [PartitionNode(GuidOne()), FileNode(), EndNode()];
    EntryListed();
    PartitionNamed();
    FileHolds();
    LeadingIgnored(t, SLASH, [0x61]);
    assert [SLASH] + [0x61] == t.loader;
    SamePathIff(t, [0x61], t.loader);
    SamePathIff(t, t.loader, [0x61]);
    TargetVerdict(raw, t, [0x41], 8);
    assert nodes[0] in nodes && nodes[1] in nodes;
    assert IsLoader(nodes[1], t);
  }

  lemma FileHolds()
    ensures HoldsPath(FileNode(), [0x61])
  {
    var text: Text := [0x61];
    assert text[1..] == [] && Encode([]) == Some([]) && EncodePoint(0x61) == [0x61, 0x00];
    assert Encode(text) == Some(EncodePoint(0x61) + []);
    assert EncodePoint(0x61) + [] == FileNode()[4..|FileNode()| - 2];
    assert FileNode()[..2] == [0x04, 0x04];
  }

  lemma NewLabel()
    ensures EncodeLabel([0x42]).Ok?
  {
    EncodeDefined([0x42]);
  }

  /** Relabelled "B" on firmware that keeps nothing. */
  method LeftUnrestoredExample() returns (variable: Variable, backup: BackupPath, o: Outcome)
    ensures fresh(variable) && fresh(backup)
    ensures o.ReadBackRejected? && variable.contents == [] != Entry(GuidOne())
  {
    EntryParses();
    NewLabel();
    variable, backup, o := LeftUnrestored(Entry(GuidOne()), TargetOne(), [0x42]);
  }

  /** Relabelled "B" in two runs over a file system that takes ten bytes. */
  method TruncatedBackupExample()
    returns (variable: Variable, backup: BackupPath, first: Outcome, second: Outcome)
    ensures fresh(variable) && fresh(backup)
    ensures first.BackupFailed? && second.Relabelled?
    ensures backup.node == Regular(Entry(GuidOne())[..10]) && backup.node != Regular(Entry(GuidOne()))
  {
    EntryParses();
    NewLabel();
    variable, backup, first, second := TruncatedBackupKept(Entry(GuidOne()), TargetOne(), [0x42], 10);
  }
}
