/** The protected terms of tools/translate_ts.py (210-256): every one of them is fit for the
    round trip, so a table of them is, in whatever order. */
module SentinelTable {
  import opened SentinelRules
  import opened SentinelWords
  import opened SentinelPieces
  import opened SentinelMade

  // ----- A simple test for a term ---------------------------------------------

  predicate Edges(term: string) {
    && term != "" && term[0] != ' ' && '%' !in term && IsWord(term[|term| - 1])
    && (|term| == 4 && Upper(term[0]) == 'N' ==> term == "ntfs")
  }

  /** Every sentinel ends with an X. */
  predicate NoX(text: string) { 'x' !in text && 'X' !in text }

  predicate Simple(term: string) { Edges(term) && NoX(term) }

  /** Not behind a digit, an M, or an N that is behind an H. */
  predicate HarmlessAt(text: string, i: nat)
    requires i < |text|
  {
    i > 0 ==>
      && !IsDigit(text[i - 1]) && Upper(text[i - 1]) != 'M'
      && (Upper(text[i - 1]) == 'N' ==> i < 2 || Upper(text[i - 2]) != 'H')
  }

  predicate HarmlessX(text: string) {
    forall i | 0 < i < |text| :: Upper(text[i]) == 'X' ==> HarmlessAt(text, i)
  }

  /** The same, for a term with an X. */
  predicate SimpleX(term: string) { Edges(term) && HarmlessX(term) }

  lemma NoXHarmless(text: string)
    requires NoX(text)
    ensures HarmlessX(text)
  {
    forall i | 0 < i < |text| ensures Upper(text[i]) != 'X' {
      assert text[i] in text;
    }
  }

  /** An X between two parts. */
  lemma JoinX(text: string, front: string, x: char, back: string)
    requires text == front + [x] + back && HarmlessX(front) && NoX(back)
    requires HarmlessAt(front + [x], |front|)
    ensures HarmlessX(text)
  {
    forall i | |front| < i < |text| ensures Upper(text[i]) != 'X' {
      assert text[i] == back[i - |front| - 1] && text[i] in back;
    }
    forall i | 0 < i < |text| && Upper(text[i]) == 'X' ensures HarmlessAt(text, i) {
      assert text[..|front|] == front;
      if i < |front| {
        assert HarmlessAt(front, i);
        assert text[i] == front[i] && text[i - 1] == front[i - 1] && (i > 1 ==> text[i - 2] == front[i - 2]);
      }
    }
  }

  lemma {:induction false} LastDigit(digits: string)
    requires AllDigits(digits) && digits != ""
    ensures IsDigit(digits[|digits| - 1])
  {
    if |digits| > 1 {
      LastDigit(digits[1..]);
    }
  }

  lemma NumberEnds(text: string, k: nat)
    requires k <= |text| && Number(text[k..]) != ""
    ensures var n := k + |Number(text[k..])|; n < |text| && text[n] == 'X' && IsDigit(text[n - 1])
  {
    var number := Number(text[k..]);
    NumberDigits(text[k..]);
    LastDigit(number);
    assert text[k..][..|number| + 1] == number + "X";
    assert text[k + |number|] == (number + "X")[|number|];
    assert text[k + |number| - 1] == (number + "X")[|number| - 1];
  }

  /** Every sentinel ends with a harmful X. */
  lemma ReadEnds(text: string)
    requires !Read(text).0.Nothing?
    ensures !HarmlessX(text)
  {
    match Read(text).0
    case Digits(_) => NumberEnds(text, 2);
    case Term(_) => NumberEnds(text, 2);
    case Run(_, _) => NumberEnds(text, 3);
    case Plural => assert Upper(text[3]) == 'X' && Upper(text[2]) == 'N' && Upper(text[1]) == 'H';
    case Glyph(_) => assert Upper(text[3]) == 'X' && IsDigit(text[2]);
    case Mnemonic => assert Upper(text[4]) == 'X' && Upper(text[3]) == 'M';
  }

  lemma {:induction false} HarmlessClean(text: string)
    requires HarmlessX(text)
    ensures Clean(text)
  {
    if text != "" {
      if !Read(text).0.Nothing? {
        ReadEnds(text);
      }
      HarmlessClean(text[1..]);
    }
  }

  lemma UpperOnce(c: char)
    ensures Upper(Upper(c)) == Upper(c) && IsDigit(Upper(c)) == IsDigit(c)
  {
  }

  lemma HarmlessUpper(text: string, upper: string)
    requires HarmlessX(text) && |upper| == |text| && forall i | 0 <= i < |text| :: upper[i] == Upper(text[i])
    ensures HarmlessX(upper)
  {
    forall i | 0 <= i < |text| ensures Upper(upper[i]) == Upper(text[i]) && IsDigit(upper[i]) == IsDigit(text[i]) {
      UpperOnce(text[i]);
    }
  }

  lemma HarmlessOk(term: string)
    requires SimpleX(term)
    ensures TermOk(term)
  {
    UpperAllAt(term);
    HarmlessUpper(term, UpperAll(term));
    HarmlessClean(UpperAll(term));
  }

  // ----- The terms, as far as they hold no X ----------------------------------

  function Plain1(): seq<string> {
    ["systemd-sysv-install", "update-initramfs", "initramfs-tools", "grub2-mkconfig"]
  }

  lemma Plain1Ok(terms: seq<string>)
    requires terms == Plain1()
    ensures forall term | term in terms :: Simple(term)
  {
  }

  function Plain2(): seq<string> {
    ["kernel-headers", "modules-load.d", "grub-mkconfig", "zfs-initramfs", "grub-install"]
  }

  lemma Plain2Ok(terms: seq<string>)
    requires terms == Plain2()
    ensures forall term | term in terms :: Simple(term)
  {
  }

  function Plain3(): seq<string> {
    ["systemd-boot", "kernel-devel", "update-grub", "BootCurrent", "mkinitramfs"]
  }

  lemma Plain3Ok(terms: seq<string>)
    requires terms == Plain3()
    ensures forall term | term in terms :: Simple(term)
  {
  }

  function Plain4(): seq<string> {
    ["lsinitramfs", "btrfs-progs", "hid-generic", "grub-probe", "Boot Bitch", "mkinitcpio"]
  }

  lemma Plain4Ok(terms: seq<string>)
    requires terms == Plain4()
    ensures forall term | term in terms :: Simple(term)
  {
  }

  function Plain5(): seq<string> {
    ["lsinitcpio", "initrd.img", "efibootmgr", "cryptsetup", "virtio_net", "securityfs"]
  }

  lemma Plain5Ok(terms: seq<string>)
    requires terms == Plain5()
    ensures forall term | term in terms :: Simple(term)
  {
  }

  function Plain6(): seq<string> {
    ["BootOrder", "initramfs", "os-prober", "menuentry", "subvolume", "timeshift", "hid_apple"]
  }

  lemma Plain6Ok(terms: seq<string>)
    requires terms == Plain6()
    ensures forall term | term in terms :: Simple(term)
  {
  }

  function Plain7(): seq<string> {
    ["/boot/efi", "overlayfs", "hugetlbfs", "mkinitfs", "lsinitrd", "grub.cfg", "crypttab"]
  }

  lemma Plain7Ok(terms: seq<string>)
    requires terms == Plain7()
    ensures forall term | term in terms :: Simple(term)
  {
  }

  function Plain8(): seq<string> {
    ["fsck.fat", "sysvinit", "modprobe", "sbverify", "PARTUUID", "reiserfs", "squashfs",
     "devtmpfs"]
  }

  lemma Plain8Ok(terms: seq<string>)
    requires terms == Plain8()
    ensures forall term | term in terms :: Simple(term)
  {
  }

  function Plain9(): seq<string> {
    ["efivarfs", "configfs", "Hyper-V", "vmlinuz", "grubenv", "bootctl", "snapper", "apt-get",
     "systemd"]
  }

  lemma Plain9Ok(terms: seq<string>)
    requires terms == Plain9()
    ensures forall term | term in terms :: Simple(term)
  {
  }

  function Plain10(): seq<string> {
    ["findmnt", "objcopy", "mokutil", "lightdm", "reiser4", "iso9660", "overlay", "debugfs",
     "tracefs"]
  }

  lemma Plain10Ok(terms: seq<string>)
    requires terms == Plain10()
    ensures forall term | term in terms :: Simple(term)
  {
  }

  function Plain11(): seq<string> {
    ["fusectl", "hfsplus", "WebFAI", "VMware", "Cirrus", "Virtio", "pacman", "dracut", "akmods",
     "Polkit"]
  }

  lemma Plain11Ok(terms: seq<string>)
    requires terms == Plain11()
    ensures forall term | term in terms :: Simple(term)
  {
  }

  function Plain12(): seq<string> {
    ["initrd", "subvol", "mapper", "e2fsck", "openrc", "chroot", "pesign", "nvidia", "nilfs2",
     "cramfs", "devpts"]
  }

  lemma Plain12Ok(terms: seq<string>)
    requires terms == Plain12()
    ensures forall term | term in terms :: Simple(term)
  {
  }

  function Plain13(): seq<string> {
    ["pstore", "mqueue", "autofs", "Bochs", "mdadm", "fstab", "lsblk", "blkid", "/boot", "/home",
     "NVRAM"]
  }

  lemma Plain13Ok(terms: seq<string>)
    requires terms == Plain13()
    ensures forall term | term in terms :: Simple(term)
  {
  }

  function Plain14(): seq<string> {
    ["GRUB2", "btrfs", "nilfs", "fat12", "fat16", "fat32", "ntfs3", "romfs", "tmpfs", "sysfs",
     "erofs"]
  }

  lemma Plain14Ok(terms: seq<string>)
    requires terms == Plain14()
    ensures forall term | term in terms :: Simple(term)
  {
  }

  function Plain15(): seq<string> {
    ["QEMU", "shim", "lvm2", "dpkg", "dkms", "dnf5", "fsck", "cpio", "zcat", "sddm", "/dev"]
  }

  lemma Plain15Ok(terms: seq<string>)
    requires terms == Plain15()
    ensures forall term | term in terms :: Simple(term)
  {
  }

  function Plain16(): seq<string> {
    ["RAID", "UEFI", "GRUB", "LUKS", "AKMS", "vfat", "ntfs", "f2fs", "proc", "sysv", "hpfs"]
  }

  lemma Plain16Ok(terms: seq<string>)
    requires terms == Plain16()
    ensures forall term | term in terms :: Simple(term)
  {
  }

  function Plain17(): seq<string> {
    ["lvs", "apt", "apk", "dnf", "gcc", "gdm", "LVM", "ZFS", "ESP", "EFI", "UKI"]
  }

  lemma Plain17Ok(terms: seq<string>)
    requires terms == Plain17()
    ensures forall term | term in terms :: Simple(term)
  {
  }

  function Plain18(): seq<string> {
    ["RPM", "BLS", "GPT", "MBR", "jfs", "fat", "udf", "hfs", "ufs"]
  }

  lemma Plain18Ok(terms: seq<string>)
    requires terms == Plain18()
    ensures forall term | term in terms :: Simple(term)
  {
  }

  // ----- The terms with an X --------------------------------------------------

  function WithX1(): seq<string> {
    ["linux-headers", "linux-image"]
  }

  lemma WithX1Ok(term: string)
    requires term in WithX1()
    ensures SimpleX(term)
  {
    if term == "linux-headers" {
      NoXHarmless("linu");
      JoinX(term, "linu", 'x', "-headers");
    }
    if term == "linux-image" {
      NoXHarmless("linu");
      JoinX(term, "linu", 'x', "-image");
    }
  }

  function WithX2(): seq<string> {
    ["VirtualBox", "BootNext"]
  }

  lemma WithX2Ok(term: string)
    requires term in WithX2()
    ensures SimpleX(term)
  {
    if term == "VirtualBox" {
      NoXHarmless("VirtualBo");
      JoinX(term, "VirtualBo", 'x', "");
    }
    if term == "BootNext" {
      NoXHarmless("BootNe");
      JoinX(term, "BootNe", 'x', "t");
    }
  }

  function WithX3(): seq<string> {
    ["extlinux", "syslinux", "TUXEDO"]
  }

  lemma WithX3Ok(term: string)
    requires term in WithX3()
    ensures SimpleX(term)
  {
    if term == "extlinux" {
      NoXHarmless("e");
      JoinX("extlinu", "e", 'x', "tlinu");
      JoinX(term, "extlinu", 'x', "");
    }
    if term == "syslinux" {
      NoXHarmless("syslinu");
      JoinX(term, "syslinu", 'x', "");
    }
    if term == "TUXEDO" {
      NoXHarmless("TU");
      JoinX(term, "TU", 'X', "EDO");
    }
  }

  function WithX4(): seq<string> {
    ["pkexec", "exfat", "minix", "iPXE"]
  }

  lemma WithX4Ok(term: string)
    requires term in WithX4()
    ensures SimpleX(term)
  {
    if term == "pkexec" {
      NoXHarmless("pke");
      JoinX(term, "pke", 'x', "ec");
    }
    if term == "exfat" {
      NoXHarmless("e");
      JoinX(term, "e", 'x', "fat");
    }
    if term == "minix" {
      NoXHarmless("mini");
      JoinX(term, "mini", 'x', "");
    }
    if term == "iPXE" {
      NoXHarmless("iP");
      JoinX(term, "iP", 'X', "E");
    }
  }

  function WithX5(): seq<string> {
    ["ext2", "ext3", "ext4", "qnx4"]
  }

  lemma WithX5Ok(term: string)
    requires term in WithX5()
    ensures SimpleX(term)
  {
    if term == "ext2" {
      NoXHarmless("e");
      JoinX(term, "e", 'x', "t2");
    }
    if term == "ext3" {
      NoXHarmless("e");
      JoinX(term, "e", 'x', "t3");
    }
    if term == "ext4" {
      NoXHarmless("e");
      JoinX(term, "e", 'x', "t4");
    }
    if term == "qnx4" {
      NoXHarmless("qn");
      JoinX(term, "qn", 'x', "4");
    }
  }

  function WithX6(): seq<string> {
    ["qnx6", "QXL", "ext", "xfs"]
  }

  lemma WithX6Ok(term: string)
    requires term in WithX6()
    ensures SimpleX(term)
  {
    if term == "qnx6" {
      NoXHarmless("qn");
      JoinX(term, "qn", 'x', "6");
    }
    if term == "QXL" {
      NoXHarmless("Q");
      JoinX(term, "Q", 'X', "L");
    }
    if term == "ext" {
      NoXHarmless("e");
      JoinX(term, "e", 'x', "t");
    }
    if term == "xfs" {
      NoXHarmless("");
      JoinX(term, "", 'x', "fs");
    }
  }

  // ----- The table ------------------------------------------------------------

  predicate IsPlainTerm(term: string) {
    term in Plain1() || term in Plain2() || term in Plain3() || term in Plain4() ||
    term in Plain5() || term in Plain6() || term in Plain7() || term in Plain8() ||
    term in Plain9() || term in Plain10() || term in Plain11() || term in Plain12() ||
    term in Plain13() || term in Plain14() || term in Plain15() || term in Plain16() ||
    term in Plain17() || term in Plain18()
  }

  lemma IsPlainTermOk(term: string)
    requires IsPlainTerm(term)
    ensures Simple(term)
  {
    if term in Plain1() { Plain1Ok(Plain1()); }
    if term in Plain2() { Plain2Ok(Plain2()); }
    if term in Plain3() { Plain3Ok(Plain3()); }
    if term in Plain4() { Plain4Ok(Plain4()); }
    if term in Plain5() { Plain5Ok(Plain5()); }
    if term in Plain6() { Plain6Ok(Plain6()); }
    if term in Plain7() { Plain7Ok(Plain7()); }
    if term in Plain8() { Plain8Ok(Plain8()); }
    if term in Plain9() { Plain9Ok(Plain9()); }
    if term in Plain10() { Plain10Ok(Plain10()); }
    if term in Plain11() { Plain11Ok(Plain11()); }
    if term in Plain12() { Plain12Ok(Plain12()); }
    if term in Plain13() { Plain13Ok(Plain13()); }
    if term in Plain14() { Plain14Ok(Plain14()); }
    if term in Plain15() { Plain15Ok(Plain15()); }
    if term in Plain16() { Plain16Ok(Plain16()); }
    if term in Plain17() { Plain17Ok(Plain17()); }
    if term in Plain18() { Plain18Ok(Plain18()); }
  }

  predicate IsTermWithX(term: string) {
    term in WithX1() || term in WithX2() || term in WithX3() || term in WithX4() ||
    term in WithX5() || term in WithX6()
  }

  lemma IsTermWithXOk(term: string)
    requires IsTermWithX(term)
    ensures SimpleX(term)
  {
    if term in WithX1() { WithX1Ok(term); }
    if term in WithX2() { WithX2Ok(term); }
    if term in WithX3() { WithX3Ok(term); }
    if term in WithX4() { WithX4Ok(term); }
    if term in WithX5() { WithX5Ok(term); }
    if term in WithX6() { WithX6Ok(term); }
  }

  predicate IsProgramTerm(term: string) { IsPlainTerm(term) || IsTermWithX(term) }

  lemma ProgramTermSimple(term: string)
    requires IsProgramTerm(term)
    ensures SimpleX(term)
  {
    if IsPlainTerm(term) {
      IsPlainTermOk(term);
      NoXHarmless(term);
    } else {
      IsTermWithXOk(term);
    }
  }

  /** Every table of the program's terms is fit, in whatever order it holds them. */
  lemma ProgramTableOk(terms: seq<string>)
    requires forall term | term in terms :: IsProgramTerm(term)
    ensures TableOk(terms)
  {
    forall i | 0 <= i < |terms| ensures TermOk(terms[i]) {
      ProgramTermSimple(terms[i]);
      HarmlessOk(terms[i]);
    }
  }

  lemma OnlyNtfs(term: string)
    requires IsProgramTerm(term) && UpperAll(term) == "NTFS"
    ensures term == "ntfs"
  {
    ProgramTermSimple(term);
    UpperAllAt(term);
  }

  /** With the program's own table "%NTFS" comes back with a placeholder. */
  lemma ProgramMakesPlaceholder(terms: seq<string>)
    requires (forall term | term in terms :: IsProgramTerm(term)) && "ntfs" in terms
    ensures var back := RestoreSegment(terms, ProtectSegment(terms, "%NTFS"));
            back == "%ntfs" && PlaceholdersOf("%NTFS") == [] && PlaceholdersOf(back) == ["%n"]
  {
    ProgramTableOk(terms);
    forall term | term in terms && UpperAll(term) == "NTFS" ensures term == "ntfs" {
      OnlyNtfs(term);
    }
    NtfsMakesPlaceholder(terms);
  }
}
