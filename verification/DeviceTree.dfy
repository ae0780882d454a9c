/** The device tree of src/SystemScanner.cpp: the protection and classification
    passes over the parsed nodes.  Reading a mount point's os-release file is a
    parameter. */
module DeviceTree {

  datatype Status =
    | Unset
    | ProtectedSystem
    | InstalledLinux(name: string)
    | LuksUnlocked | LuksLocked
    | Swap | LiveMedia | FatVolume | NonLinuxVolume
    | LinuxToInspect | LinuxFileSystem
    | UnformattedPartition | UnknownVolume | OtherFileSystem(fileSystem: string)
    | DiskWithLinux | DiskWithLuks | DiskAvailable

  datatype Node = Node(
    kind: string, fileSystem: string, mountPoints: seq<string>, children: seq<Node>,
    protectedDevice: bool, encrypted: bool, linuxCapable: bool, osName: string, status: Status)
  {
    predicate Installed() { osName != "" }
  }

  /** The PRETTY_NAME found below a mount point, or "". */
  type OsNames = string -> string

  // ----- Whole trees ----------------------------------------------------------

  /** Some node of the tree satisfies p. */
  predicate SomeNode(node: Node, p: Node -> bool)
    decreases node, 1
  {
    p(node) || SomeBelow(node, p)
  }

  /** Some proper descendant satisfies p. */
  predicate SomeBelow(node: Node, p: Node -> bool)
    decreases node, 0
  {
    exists i | 0 <= i < |node.children| :: SomeNode(node.children[i], p)
  }

  // ----- The queries ----------------------------------------------------------

  function ProtectedPrefixes(): seq<string> {
    ["/", "/boot", "/efi", "/usr", "/var", "/home", "/opt", "/srv", "/etc"]
  }

  /** Equal to a listed prefix or below one. */
  predicate IsProtectedMountPoint(mountPoint: string) {
    exists i | 0 <= i < |ProtectedPrefixes()| ::
      mountPoint == ProtectedPrefixes()[i] || ProtectedPrefixes()[i] + "/" <= mountPoint
  }

  predicate MountedProtected(node: Node) {
    exists i | 0 <= i < |node.mountPoints| :: IsProtectedMountPoint(node.mountPoints[i])
  }

  function Lower(s: string): string {
    seq(|s|, i requires 0 <= i < |s| => if 'A' <= s[i] <= 'Z' then s[i] - 'A' + 'a' else s[i])
  }

  predicate IsLuks(fileSystem: string) { Lower(fileSystem) == Lower("crypto_LUKS") }

  predicate IsLinuxCapable(fileSystem: string) {
    Lower(fileSystem) in ["btrfs", "ext2", "ext3", "ext4", "xfs", "f2fs"]
  }

  /** The first mount point that names a system decides. */
  function DetectedName(names: OsNames, mountPoints: seq<string>): string {
    if mountPoints == [] then ""
    else if mountPoints[0] != "" && names(mountPoints[0]) != "" then names(mountPoints[0])
    else DetectedName(names, mountPoints[1..])
  }

  /** treeBacksRunningSystem. */
  predicate BacksRunningSystem(node: Node) {
    || MountedProtected(node)
    || exists i | 0 <= i < |node.children| :: BacksRunningSystem(node.children[i])
  }

  /** treeContainsInstalledLinux. */
  predicate ContainsInstalled(names: OsNames, node: Node) {
    || node.Installed() || DetectedName(names, node.mountPoints) != ""
    || exists i | 0 <= i < |node.children| :: ContainsInstalled(names, node.children[i])
  }

  /** treeContainsEncryptedVolume. */
  predicate ContainsEncrypted(node: Node) {
    || node.encrypted || IsLuks(node.fileSystem)
    || exists i | 0 <= i < |node.children| :: ContainsEncrypted(node.children[i])
  }

  /** The lambda of classifyTree: a node that already shows Linux. */
  predicate HasVisibleLinux(node: Node) {
    || node.Installed() || node.linuxCapable
    || exists i | 0 <= i < |node.children| :: HasVisibleLinux(node.children[i])
  }

  predicate AnyVisible(nodes: seq<Node>) {
    exists i | 0 <= i < |nodes| :: HasVisibleLinux(nodes[i])
  }

  // ----- The passes -----------------------------------------------------------

  function WithProtection(node: Node, protectedTree: bool): Node {
    node.(protectedDevice := protectedTree,
          children := seq(|node.children|, i requires 0 <= i < |node.children| =>
                        WithProtection(node.children[i], protectedTree)))
  }

  function StatusOf(node: Node, unlocked: bool): Status {
    if node.protectedDevice then ProtectedSystem
    else if node.Installed() then InstalledLinux(node.osName)
    else if node.encrypted && unlocked then LuksUnlocked
    else if node.encrypted then LuksLocked
    else if node.fileSystem == "swap" then Swap
    else if node.fileSystem == "iso9660" then LiveMedia
    else if node.fileSystem in ["vfat", "fat", "fat32"] then FatVolume
    else if node.fileSystem in ["ntfs", "exfat"] then NonLinuxVolume
    else if node.linuxCapable && node.mountPoints == [] then LinuxToInspect
    else if node.linuxCapable then LinuxFileSystem
    else if node.kind == "part" && node.fileSystem == "" then UnformattedPartition
    else if node.kind != "disk" then (if node.fileSystem == "" then UnknownVolume else OtherFileSystem(node.fileSystem))
    else node.status
  }

  /** The fields classifyTree derives from the node's own metadata. */
  function Marked(names: OsNames, node: Node): Node {
    node.(encrypted := IsLuks(node.fileSystem), linuxCapable := IsLinuxCapable(node.fileSystem),
          osName := DetectedName(names, node.mountPoints))
  }

  function Classified(names: OsNames, node: Node): Node {
    var children := seq(|node.children|, i requires 0 <= i < |node.children| => Classified(names, node.children[i]));
    var marked := Marked(names, node).(children := children);
    var unlocked := marked.encrypted && AnyVisible(children);
    marked.(status := StatusOf(marked, unlocked))
  }

  method ApplyProtection(node: Node, protectedTree: bool) returns (r: Node)
    ensures r == WithProtection(node, protectedTree)
  {
    r := node.(protectedDevice := protectedTree);
    var children := node.children;
    for i := 0 to |children|
      invariant |children| == |node.children|
      invariant forall k | 0 <= k < i :: children[k] == WithProtection(node.children[k], protectedTree)
      invariant forall k | i <= k < |children| :: children[k] == node.children[k]
    {
      var child := ApplyProtection(children[i], protectedTree);
      children := children[i := child];
    }
    r := r.(children := children);
  }

  method SomeVisible(children: seq<Node>) returns (unlocked: bool)
    ensures unlocked == AnyVisible(children)
  {
    for i := 0 to |children|
      invariant forall k | 0 <= k < i :: !HasVisibleLinux(children[k])
    {
      if HasVisibleLinux(children[i]) {
        return true;
      }
    }
    return false;
  }

  method ClassifyTree(names: OsNames, node: Node) returns (r: Node)
    ensures r == Classified(names, node)
  {
    r := Marked(names, node);
    var children := node.children;
    for i := 0 to |children|
      invariant |children| == |node.children|
      invariant forall k | 0 <= k < i :: children[k] == Classified(names, node.children[k])
      invariant forall k | i <= k < |children| :: children[k] == node.children[k]
    {
      var child := ClassifyTree(names, children[i]);
      children := children[i := child];
    }
    r := r.(children := children);
    var unlocked := false;
    if r.encrypted {
      unlocked := SomeVisible(children);
    }
    assert children == seq(|node.children|, i requires 0 <= i < |node.children| => Classified(names, node.children[i]));
    assert unlocked == (r.encrypted && AnyVisible(children));
    r := r.(status := StatusOf(r, unlocked));
  }

  /** The part of scan() that one top-level device goes through. */
  function Scanned(names: OsNames, node: Node): Node {
    var protectedTree := BacksRunningSystem(node);
    var n := Classified(names, WithProtection(node, protectedTree));
    if n.kind != "disk" then n
    else n.(status := if protectedTree then ProtectedSystem
                      else if ContainsInstalled(names, n) then DiskWithLinux
                      else if ContainsEncrypted(n) then DiskWithLuks
                      else DiskAvailable)
  }

  method ScanDevice(names: OsNames, node: Node) returns (r: Node)
    ensures r == Scanned(names, node)
  {
    var protectedTree := BacksRunningSystem(node);
    r := ApplyProtection(node, protectedTree);
    r := ClassifyTree(names, r);
    if r.kind == "disk" {
      if protectedTree {
        r := r.(status := ProtectedSystem);
      } else if ContainsInstalled(names, r) {
        r := r.(status := DiskWithLinux);
      } else if ContainsEncrypted(r) {
        r := r.(status := DiskWithLuks);
      } else {
        r := r.(status := DiskAvailable);
      }
    }
  }

  // ----- What the passes establish --------------------------------------------

  /** Raw metadata that makes a volume count as visible Linux. */
  function ShowsLinux(names: OsNames): Node -> bool {
    (node: Node) => IsLinuxCapable(node.fileSystem) || DetectedName(names, node.mountPoints) != ""
  }

  function NamesSystem(names: OsNames): Node -> bool {
    (node: Node) => DetectedName(names, node.mountPoints) != ""
  }

  predicate LuksVolume(node: Node) { IsLuks(node.fileSystem) }

  ghost predicate LinuxBelow(names: OsNames, node: Node) {
    SomeBelow(node, ShowsLinux(names))
  }

  lemma {:induction false} BacksIff(node: Node)
    ensures BacksRunningSystem(node) <==> SomeNode(node, MountedProtected)
  {
    forall i | 0 <= i < |node.children|
      ensures BacksRunningSystem(node.children[i]) <==> SomeNode(node.children[i], MountedProtected)
    {
      BacksIff(node.children[i]);
    }
  }

  /** Visibility in a classified tree is visibility in the raw metadata: it rests on
      the children being classified before they are asked. */
  lemma {:induction false} VisibleIff(names: OsNames, node: Node)
    ensures HasVisibleLinux(Classified(names, node)) <==> SomeNode(node, ShowsLinux(names))
  {
    var done := Classified(names, node);
    forall i | 0 <= i < |node.children|
      ensures HasVisibleLinux(done.children[i]) <==> SomeNode(node.children[i], ShowsLinux(names))
    {
      VisibleIff(names, node.children[i]);
    }
    assert HasVisibleLinux(done)
           == (done.Installed() || done.linuxCapable
               || exists i | 0 <= i < |done.children| :: HasVisibleLinux(done.children[i]));
  }

  /** What a node of the scanned tree must say about the raw node it stands for. */
  ghost predicate NodeAgrees(names: OsNames, protectedTree: bool, raw: Node, n: Node) {
    && n.protectedDevice == protectedTree
    && n.encrypted == IsLuks(raw.fileSystem)
    && (n.status == ProtectedSystem <==> protectedTree)
    && (n.status.InstalledLinux? <==> !protectedTree && DetectedName(names, raw.mountPoints) != "")
    && (n.status == LuksUnlocked <==>
          && !protectedTree && DetectedName(names, raw.mountPoints) == ""
          && IsLuks(raw.fileSystem) && LinuxBelow(names, raw))
    && (n.status == LuksLocked <==>
          && !protectedTree && DetectedName(names, raw.mountPoints) == ""
          && IsLuks(raw.fileSystem) && !LinuxBelow(names, raw))
  }

  ghost predicate TreeAgrees(names: OsNames, protectedTree: bool, raw: Node, n: Node) {
    && NodeAgrees(names, protectedTree, raw, n)
    && |n.children| == |raw.children|
    && forall i | 0 <= i < |raw.children| :: TreeAgrees(names, protectedTree, raw.children[i], n.children[i])
  }

  /** As the parser leaves it: no status yet. */
  predicate Fresh(node: Node) {
    node.status == Unset && forall i | 0 <= i < |node.children| :: Fresh(node.children[i])
  }

  /** A property of a node's own metadata. */
  ghost predicate OfMetadata(p: Node -> bool) {
    forall m: Node, n: Node | m.fileSystem == n.fileSystem && m.mountPoints == n.mountPoints :: p(m) == p(n)
  }

  lemma {:induction false} ProtectionKeeps(node: Node, protectedTree: bool, p: Node -> bool)
    requires OfMetadata(p)
    ensures SomeNode(WithProtection(node, protectedTree), p) <==> SomeNode(node, p)
    ensures SomeBelow(WithProtection(node, protectedTree), p) <==> SomeBelow(node, p)
  {
    var w := WithProtection(node, protectedTree);
    forall i | 0 <= i < |node.children| ensures SomeNode(w.children[i], p) <==> SomeNode(node.children[i], p) {
      ProtectionKeeps(node.children[i], protectedTree, p);
    }
    assert p(w) == p(node);
  }

  lemma VisibleBelow(names: OsNames, node: Node)
    ensures AnyVisible(Classified(names, node).children) <==> LinuxBelow(names, node)
  {
    var children := Classified(names, node).children;
    if AnyVisible(children) {
      var i :| 0 <= i < |children| && HasVisibleLinux(children[i]);
      VisibleChild(names, node, i);
    }
    if LinuxBelow(names, node) {
      var i := ChildBelow(node, ShowsLinux(names));
      VisibleChild(names, node, i);
      assert HasVisibleLinux(children[i]);
    }
  }

  lemma VisibleChild(names: OsNames, node: Node, i: nat)
    requires i < |node.children|
    ensures i < |Classified(names, node).children|
    ensures HasVisibleLinux(Classified(names, node).children[i]) <==> SomeNode(node.children[i], ShowsLinux(names))
    ensures SomeNode(node.children[i], ShowsLinux(names)) ==> LinuxBelow(names, node)
  {
    VisibleIff(names, node.children[i]);
  }

  lemma ChildBelow(node: Node, p: Node -> bool) returns (i: nat)
    requires SomeBelow(node, p)
    ensures i < |node.children| && SomeNode(node.children[i], p)
  {
    i :| 0 <= i < |node.children| && SomeNode(node.children[i], p);
  }

  lemma StatusMeaning(node: Node, unlocked: bool)
    requires node.status == Unset
    ensures var status := StatusOf(node, unlocked);
            && (status == ProtectedSystem <==> node.protectedDevice)
            && (status.InstalledLinux? <==> !node.protectedDevice && node.Installed())
            && (status == LuksUnlocked <==>
                  !node.protectedDevice && !node.Installed() && node.encrypted && unlocked)
            && (status == LuksLocked <==>
                  !node.protectedDevice && !node.Installed() && node.encrypted && !unlocked)
  {
  }

  /** The status of a classified node, by its own fields and its children. */
  lemma ClassifiedStatus(names: OsNames, node: Node)
    requires node.status == Unset
    ensures var done := Classified(names, node);
            var named := DetectedName(names, node.mountPoints) != "";
            && done.protectedDevice == node.protectedDevice && done.encrypted == IsLuks(node.fileSystem)
            && (done.status == ProtectedSystem <==> node.protectedDevice)
            && (done.status.InstalledLinux? <==> !node.protectedDevice && named)
            && (done.status == LuksUnlocked <==>
                  !node.protectedDevice && !named && IsLuks(node.fileSystem) && LinuxBelow(names, node))
            && (done.status == LuksLocked <==>
                  !node.protectedDevice && !named && IsLuks(node.fileSystem) && !LinuxBelow(names, node))
  {
    var done := Classified(names, node);
    var unlocked := done.encrypted && AnyVisible(done.children);
    VisibleBelow(names, node);
    StatusMeaning(Marked(names, node).(children := done.children), unlocked);
  }

  lemma ClassifiedNodeAgrees(names: OsNames, protectedTree: bool, node: Node)
    requires node.status == Unset
    ensures NodeAgrees(names, protectedTree, node, Classified(names, WithProtection(node, protectedTree)))
  {
    ClassifiedStatus(names, WithProtection(node, protectedTree));
    ProtectionKeeps(node, protectedTree, ShowsLinux(names));
  }

  lemma {:induction false} ClassifiedTreeAgrees(names: OsNames, protectedTree: bool, node: Node)
    requires Fresh(node)
    ensures TreeAgrees(names, protectedTree, node, Classified(names, WithProtection(node, protectedTree)))
  {
    ClassifiedNodeAgrees(names, protectedTree, node);
    forall i | 0 <= i < |node.children|
      ensures TreeAgrees(names, protectedTree, node.children[i],
                         Classified(names, WithProtection(node.children[i], protectedTree)))
    {
      ClassifiedTreeAgrees(names, protectedTree, node.children[i]);
    }
  }

  /** For every scanned device tree: all nodes are protected if some node is mounted
      at or below a listed prefix and none is otherwise; and a LUKS node that is
      neither protected nor itself a detected system says "unlocked" exactly when
      some proper descendant shows Linux in its raw metadata.  The disk on top gets
      its own summary status. */
  lemma ScannedTreeAgrees(names: OsNames, node: Node)
    requires Fresh(node)
    ensures var protectedTree := SomeNode(node, MountedProtected);
            var n := Scanned(names, node);
            && n.protectedDevice == protectedTree
            && (node.kind != "disk" ==> NodeAgrees(names, protectedTree, node, n))
            && |n.children| == |node.children|
            && forall i | 0 <= i < |node.children| ::
                 TreeAgrees(names, protectedTree, node.children[i], n.children[i])
  {
    BacksIff(node);
    ClassifiedTreeAgrees(names, BacksRunningSystem(node), node);
  }

  lemma {:induction false} InstalledIff(names: OsNames, node: Node)
    ensures ContainsInstalled(names, Classified(names, node))
            <==> SomeNode(node, NamesSystem(names))
    ensures ContainsEncrypted(Classified(names, node)) <==> SomeNode(node, LuksVolume)
  {
    var done := Classified(names, node);
    forall i | 0 <= i < |node.children|
      ensures ContainsInstalled(names, done.children[i])
              <==> SomeNode(node.children[i], NamesSystem(names))
      ensures ContainsEncrypted(done.children[i]) <==> SomeNode(node.children[i], LuksVolume)
    {
      InstalledIff(names, node.children[i]);
    }
  }

  /** The summary status of a disk speaks about the whole raw tree, itself
      included. */
  lemma DiskStatus(names: OsNames, node: Node)
    requires node.kind == "disk"
    ensures Scanned(names, node).status
            == if SomeNode(node, MountedProtected) then ProtectedSystem
               else if SomeNode(node, NamesSystem(names)) then DiskWithLinux
               else if SomeNode(node, LuksVolume) then DiskWithLuks
               else DiskAvailable
  {
    BacksIff(node);
    var protectedTree := BacksRunningSystem(node);
    InstalledIff(names, WithProtection(node, protectedTree));
    ProtectionKeeps(node, protectedTree, NamesSystem(names));
    ProtectionKeeps(node, protectedTree, LuksVolume);
  }

  // ----- The depth cap --------------------------------------------------------

  const DEPTH_CAP := 64

  /** parseNode drops the children of nodes at depth cap. */
  function Capped(raw: Node, depth: nat, cap: nat): Node
    decreases raw
  {
    raw.(children := if depth < cap
                     then
                        seq(|raw.children|,
                          i requires 0 <= i < |raw.children| => Capped(raw.children[i], depth + 1, cap))
                     else [])
  }

  /** No node lies deeper than n levels below this one. */
  predicate WithinLevels(node: Node, n: nat) {
    node.children == []
    || (n > 0 && forall i | 0 <= i < |node.children| :: WithinLevels(node.children[i], n - 1))
  }

  /** Parsing bounds the depth of any tree, and changes exactly the trees that are
      deeper. */
  lemma {:induction false} CapExact(raw: Node, depth: nat, cap: nat)
    requires depth <= cap
    ensures WithinLevels(Capped(raw, depth, cap), cap - depth)
    ensures Capped(raw, depth, cap) == raw <==> WithinLevels(raw, cap - depth)
    decreases raw
  {
    var done := Capped(raw, depth, cap);
    if depth < cap {
      forall i | 0 <= i < |raw.children|
        ensures WithinLevels(done.children[i], cap - depth - 1)
        ensures done.children[i] == raw.children[i] <==> WithinLevels(raw.children[i], cap - depth - 1)
      {
        CapExact(raw.children[i], depth + 1, cap);
      }
      assert done.children == raw.children
             <==> forall i | 0 <= i < |raw.children| :: done.children[i] == raw.children[i];
    }
    assert done == raw <==> done.children == raw.children;
  }

  /** The tree that is parsed: it starts at depth 0. */
  function Parsed(raw: Node): Node { Capped(raw, 0, DEPTH_CAP) }

  /** No parsed tree is deeper than 64 levels, and exactly the deeper ones lose nodes. */
  lemma ParsedExact(raw: Node)
    ensures WithinLevels(Parsed(raw), DEPTH_CAP)
    ensures Parsed(raw) == raw <==> WithinLevels(raw, DEPTH_CAP)
  {
    CapExact(raw, 0, DEPTH_CAP);
  }
}
