/** Which trees src/SystemScanner.cpp protects, and what its volumes are called, told on the
    raw nodes (303-318, 483-617). */
module DeviceProtection {
  import opened DeviceTree

  // ----- Mount points ---------------------------------------------------------

  /** At the prefix, or below it across a slash. */
  ghost predicate AtOrBelow(prefix: string, mountPoint: string) {
    mountPoint == prefix || exists rest :: mountPoint == prefix + "/" + rest
  }

  ghost predicate AtSystem(mountPoint: string) {
    exists prefix | prefix in ["/", "/boot", "/efi", "/usr", "/var", "/home", "/opt", "/srv", "/etc"] ::
      AtOrBelow(prefix, mountPoint)
  }

  lemma BelowIff(prefix: string, mountPoint: string)
    ensures AtOrBelow(prefix, mountPoint) <==> mountPoint == prefix || prefix + "/" <= mountPoint
  {
    var front := prefix + "/";
    if front <= mountPoint {
      assert mountPoint == front + mountPoint[|front|..];
    }
  }

  lemma ProtectedIff(mountPoint: string)
    ensures IsProtectedMountPoint(mountPoint) <==> AtSystem(mountPoint)
  {
    var prefixes := ProtectedPrefixes();
    forall i | 0 <= i < |prefixes|
      ensures AtOrBelow(prefixes[i], mountPoint)
              <==> mountPoint == prefixes[i] || prefixes[i] + "/" <= mountPoint
    {
      BelowIff(prefixes[i], mountPoint);
    }
    if AtSystem(mountPoint) {
      var prefix :| prefix in prefixes && AtOrBelow(prefix, mountPoint);
      var i :| 0 <= i < |prefixes| && prefixes[i] == prefix;
    }
  }

  // ----- Whole trees ----------------------------------------------------------

  /** Some node of the tree is mounted at the system or below it. */
  ghost predicate HoldsSystem(node: Node) {
    || (exists mountPoint | mountPoint in node.mountPoints :: AtSystem(mountPoint))
    || exists i | 0 <= i < |node.children| :: HoldsSystem(node.children[i])
  }

  ghost predicate AllProtected(node: Node) {
    node.protectedDevice && forall i | 0 <= i < |node.children| :: AllProtected(node.children[i])
  }

  ghost predicate NoneProtected(node: Node) {
    !node.protectedDevice && forall i | 0 <= i < |node.children| :: NoneProtected(node.children[i])
  }

  lemma MountedIff(node: Node)
    ensures MountedProtected(node) <==> exists mountPoint | mountPoint in node.mountPoints :: AtSystem(mountPoint)
  {
    forall i | 0 <= i < |node.mountPoints|
      ensures IsProtectedMountPoint(node.mountPoints[i]) <==> AtSystem(node.mountPoints[i])
    {
      ProtectedIff(node.mountPoints[i]);
    }
    if mountPoint :| mountPoint in node.mountPoints && AtSystem(mountPoint) {
      var i :| 0 <= i < |node.mountPoints| && node.mountPoints[i] == mountPoint;
    }
  }

  lemma {:induction false} BacksSystemIff(node: Node)
    ensures BacksRunningSystem(node) <==> HoldsSystem(node)
  {
    MountedIff(node);
    forall i | 0 <= i < |node.children|
      ensures BacksRunningSystem(node.children[i]) <==> HoldsSystem(node.children[i])
    {
      BacksSystemIff(node.children[i]);
    }
  }

  lemma {:induction false} MarkedAll(names: OsNames, node: Node, protectedTree: bool)
    ensures var n := Classified(names, WithProtection(node, protectedTree));
            if protectedTree then AllProtected(n) else NoneProtected(n)
  {
    forall i | 0 <= i < |node.children|
      ensures var n := Classified(names, WithProtection(node.children[i], protectedTree));
              if protectedTree then AllProtected(n) else NoneProtected(n)
    {
      MarkedAll(names, node.children[i], protectedTree);
    }
  }

  /** A scanned tree in which any node is mounted at one of the nine prefixes, or below
      one, is protected as a whole; in any other tree no node is. */
  lemma ScanProtects(names: OsNames, node: Node)
    ensures if HoldsSystem(node) then AllProtected(Scanned(names, node)) else NoneProtected(Scanned(names, node))
  {
    BacksSystemIff(node);
    MarkedAll(names, node, BacksRunningSystem(node));
  }

  // ----- Two disks ------------------------------------------------------------

  function PlainNode(kind: string, mountPoints: seq<string>, children: seq<Node>): Node {
    Node(kind, "", mountPoints, children, false, false, false, "", Unset)
  }

  /** A disk with one partition that is mounted there. */
  function DiskWith(mountPoint: string): Node {
    PlainNode("disk", [], [PlainNode("part", [mountPoint], [])])
  }

  lemma DiskHolds(mountPoint: string)
    ensures HoldsSystem(DiskWith(mountPoint)) <==> AtSystem(mountPoint)
  {
    var disk := DiskWith(mountPoint);
    var part := disk.children[0];
    assert part.mountPoints == [mountPoint] && part.children == [];
    assert HoldsSystem(part) <==> AtSystem(mountPoint) by {
      assert mountPoint in part.mountPoints;
    }
  }

  lemma NotBelow(mountPoint: string, prefix: string)
    requires mountPoint == "/bootX"
    requires prefix in ["/", "/boot", "/efi", "/usr", "/var", "/home", "/opt", "/srv", "/etc"]
    ensures !AtOrBelow(prefix, mountPoint)
  {
    BelowIff(prefix, mountPoint);
    if prefix + "/" <= mountPoint {
      assert (prefix + "/")[|prefix|] == '/' == mountPoint[|prefix|];
    }
  }

  /** "/boot/efi" protects its disk, "/bootX" does not. */
  lemma MountExamples(names: OsNames)
    ensures AllProtected(Scanned(names, DiskWith("/boot/efi")))
    ensures NoneProtected(Scanned(names, DiskWith("/bootX")))
  {
    var below, beside, prefix := "/boot/efi", "/bootX", "/boot";
    assert below == prefix + "/" + "efi";
    assert AtOrBelow(prefix, below);
    assert AtSystem(below);
    DiskHolds(below);
    ScanProtects(names, DiskWith(below));
    forall other | other in ["/", "/boot", "/efi", "/usr", "/var", "/home", "/opt", "/srv", "/etc"]
      ensures !AtOrBelow(other, beside)
    {
      NotBelow(beside, other);
    }
    DiskHolds(beside);
    ScanProtects(names, DiskWith(beside));
  }

  // ----- What a volume is called ----------------------------------------------

  /** The same but for the case of ASCII letters. */
  ghost predicate SameLetters(a: string, b: string) {
    |a| == |b| && forall i | 0 <= i < |a| :: SameLetter(a[i], b[i])
  }

  predicate SameLetter(a: char, b: char) {
    || a == b
    || ('A' <= a <= 'Z' && a as int + 32 == b as int)
    || ('A' <= b <= 'Z' && b as int + 32 == a as int)
  }

  lemma LowerIff(a: string, b: string)
    ensures Lower(a) == Lower(b) <==> SameLetters(a, b)
  {
    if Lower(a) == Lower(b) {
      forall i | 0 <= i < |a| ensures SameLetter(a[i], b[i]) {
        assert Lower(a)[i] == Lower(b)[i];
      }
    }
  }

  lemma LowerNames(name: string)
    requires name in ["btrfs", "ext2", "ext3", "ext4", "xfs", "f2fs"]
    ensures Lower(name) == name
  {
  }

  /** Which file systems count as encrypted, and as Linux. */
  lemma FileSystemKinds(fileSystem: string)
    ensures IsLuks(fileSystem) <==> SameLetters(fileSystem, "crypto_LUKS")
    ensures IsLinuxCapable(fileSystem)
            <==> exists name | name in ["btrfs", "ext2", "ext3", "ext4", "xfs", "f2fs"] :: SameLetters(fileSystem, name)
  {
    LowerIff(fileSystem, "crypto_LUKS");
    var all := ["btrfs", "ext2", "ext3", "ext4", "xfs", "f2fs"];
    forall name | name in all ensures Lower(fileSystem) == name <==> SameLetters(fileSystem, name) {
      LowerNames(name);
      LowerIff(fileSystem, name);
    }
  }

  /** A detected name is that of the first mount point that has one. */
  lemma {:induction false} FirstNamed(names: OsNames, mountPoints: seq<string>)
    ensures var name := DetectedName(names, mountPoints);
            if name == "" then forall i | 0 <= i < |mountPoints| :: mountPoints[i] == "" || names(mountPoints[i]) == ""
            else exists i ::
              && 0 <= i < |mountPoints| && mountPoints[i] != "" && names(mountPoints[i]) == name
              && forall j | 0 <= j < i :: mountPoints[j] == "" || names(mountPoints[j]) == ""
  {
    if mountPoints != [] && (mountPoints[0] == "" || names(mountPoints[0]) == "") {
      var rest := mountPoints[1..];
      FirstNamed(names, rest);
      assert forall j | 1 <= j < |mountPoints| :: mountPoints[j] == rest[j - 1];
      if DetectedName(names, rest) != "" {
        var i :| 0 <= i < |rest| && rest[i] != "" && names(rest[i]) == DetectedName(names, rest)
                 && forall j | 0 <= j < i :: rest[j] == "" || names(rest[j]) == "";
        assert mountPoints[i + 1] == rest[i];
      }
    }
  }

  /** A volume that is not protected, shows no system and is not encrypted is called
      after its file system. */
  lemma OrdinaryStatus(names: OsNames, node: Node)
    requires !node.protectedDevice && node.status == Unset
    requires DetectedName(names, node.mountPoints) == "" && !IsLuks(node.fileSystem)
    ensures var status, fs := Classified(names, node).status, node.fileSystem;
            && (fs == "swap" ==> status == Swap)
            && (fs == "iso9660" ==> status == LiveMedia)
            && (fs in ["vfat", "fat", "fat32"] ==> status == FatVolume)
            && (fs in ["ntfs", "exfat"] ==> status == NonLinuxVolume)
            && (IsLinuxCapable(fs) ==> status == if node.mountPoints == [] then LinuxToInspect else LinuxFileSystem)
            && (fs == "" && node.kind == "part" ==> status == UnformattedPartition)
            && (fs == "" && node.kind != "part" && node.kind != "disk" ==> status == UnknownVolume)
            && (status.OtherFileSystem? ==> status.fileSystem == fs != "")
            && (status == Unset ==> node.kind == "disk")
  {
    var done := Classified(names, node);
    var marked := Marked(names, node).(children := done.children);
    assert done.status == StatusOf(marked, false);
    if node.fileSystem in ["swap", "iso9660", "vfat", "fat", "fat32", "ntfs", "exfat", ""] {
      OrdinaryNames(node.fileSystem);
    }
  }

  lemma OrdinaryNames(fileSystem: string)
    requires fileSystem in ["swap", "iso9660", "vfat", "fat", "fat32", "ntfs", "exfat", ""]
    ensures !IsLinuxCapable(fileSystem)
  {
    assert Lower(fileSystem) == fileSystem;
    assert |fileSystem| == 3 ==> fileSystem[0] == 'f';
    assert |fileSystem| == 4 ==> fileSystem[0] == 's' || fileSystem[0] == 'v' || fileSystem[0] == 'n';
    assert |fileSystem| == 5 ==> fileSystem[0] == 'f' || fileSystem[0] == 'e';
    assert |fileSystem| == 5 && fileSystem[0] == 'e' ==> fileSystem[1] == 'x' && fileSystem[2] == 'f';
  }
}
