/** resolveLinkTarget of legacy/gui/src/DeviceInventory.cpp (93-125): a symbolic link
    target becomes an absolute path without ".", ".." and empty parts. */
module LinkTarget {

  function Longer(parts: seq<string>, c: char): (longer: seq<string>)
    requires parts != []
    ensures longer != []
  {
    if c == '/' then parts + [""] else parts[..|parts| - 1] + [parts[|parts| - 1] + [c]]
  }

  /** The parts between slashes. */
  function Parts(path: string): (parts: seq<string>)
    ensures parts != []
  {
    if path == "" then [""] else Longer(Parts(path[..|path| - 1]), path[|path| - 1])
  }

  function Step(stack: seq<string>, part: string): seq<string> {
    if part == "" || part == "." then stack
    else if part == ".." then (if stack == [] then [] else stack[..|stack| - 1])
    else stack + [part]
  }

  /** The directories a walk along the parts ends in. */
  function Walk(stack: seq<string>, parts: seq<string>): seq<string> {
    if parts == [] then stack else Step(Walk(stack, parts[..|parts| - 1]), parts[|parts| - 1])
  }

  /** "/" and the names, with slashes between them. */
  function Show(stack: seq<string>): string {
    if |stack| == 0 then "/"
    else if |stack| == 1 then "/" + stack[0]
    else Show(stack[..|stack| - 1]) + "/" + stack[|stack| - 1]
  }

  function WalkPath(path: string): seq<string> { Walk([], Parts(path)) }

  function FullPath(linkDir: string, target: string): string {
    if target != "" && target[0] == '/' then target else linkDir + "/" + target
  }

  function Resolved(linkDir: string, target: string): string {
    if target == "" then "" else Show(WalkPath(FullPath(linkDir, target)))
  }

  method ResolveLinkTarget(linkDir: string, target: string) returns (resolved: string)
    ensures resolved == Resolved(linkDir, target)
  {
    if target == "" {
      return "";
    }
    var path := target;
    if path[0] != '/' {
      path := linkDir + "/" + path;
    }
    var stream := Parts(path);
    var parts: seq<string> := [];
    for i := 0 to |stream|
      invariant parts == Walk([], stream[..i])
    {
      assert stream[..i + 1][..i] == stream[..i];
      var part := stream[i];
      if part == "" || part == "." {
        continue;
      }
      if part == ".." {
        if parts != [] {
          parts := parts[..|parts| - 1];
        }
        continue;
      }
      parts := parts + [part];
    }
    assert stream[..|stream|] == stream;
    resolved := "/";
    for i := 0 to |parts|
      invariant resolved == Show(parts[..i])
    {
      assert parts[..i + 1][..i] == parts[..i];
      if i > 0 {
        resolved := resolved + "/";
      }
      resolved := resolved + parts[i];
    }
    assert parts[..|parts|] == parts;
  }

  // ----- What a resolved path looks like --------------------------------------

  predicate IsName(part: string) {
    part != "" && part != "." && part != ".." && '/' !in part
  }

  ghost predicate Names(stack: seq<string>) {
    forall i | 0 <= i < |stack| :: IsName(stack[i])
  }

  lemma {:induction false} PartsHoldNoSlash(path: string)
    ensures forall i | 0 <= i < |Parts(path)| :: '/' !in Parts(path)[i]
  {
    if path != "" {
      PartsHoldNoSlash(path[..|path| - 1]);
    }
  }

  lemma {:induction false} WalkNames(stack: seq<string>, parts: seq<string>)
    requires Names(stack) && forall i | 0 <= i < |parts| :: '/' !in parts[i]
    ensures Names(Walk(stack, parts))
  {
    if parts != [] {
      WalkNames(stack, parts[..|parts| - 1]);
    }
  }

  lemma {:induction false} WalkPlus(stack: seq<string>, a: seq<string>, b: seq<string>)
    ensures Walk(stack, a + b) == Walk(Walk(stack, a), b)
    decreases |b|
  {
    if b == [] {
      assert a + b == a;
    } else {
      assert (a + b)[..|a + b| - 1] == a + b[..|b| - 1];
      WalkPlus(stack, a, b[..|b| - 1]);
    }
  }

  lemma LongerPlus(left: seq<string>, right: seq<string>, c: char)
    requires right != []
    ensures Longer(left + right, c) == left + Longer(right, c)
  {
    assert (left + right)[..|left + right| - 1] == left + right[..|right| - 1];
  }

  lemma PartsMore(path: string, c: char)
    ensures Parts(path + [c]) == Longer(Parts(path), c)
  {
    assert (path + [c])[..|path|] == path;
  }

  lemma LastOfPath(a: string, b: string)
    requires b != ""
    ensures a + "/" + b == a + "/" + b[..|b| - 1] + [b[|b| - 1]]
  {
    assert b == b[..|b| - 1] + [b[|b| - 1]];
  }

  lemma {:induction false} PartsPlus(a: string, b: string)
    ensures Parts(a + "/" + b) == Parts(a) + Parts(b)
    decreases |b|
  {
    if b == "" {
      PartsMore(a, '/');
      assert a + "/" + b == a + ['/'];
    } else {
      var init, c := b[..|b| - 1], b[|b| - 1];
      PartsPlus(a, init);
      PartsMore(a + "/" + init, c);
      LastOfPath(a, b);
      LongerPlus(Parts(a), Parts(init), c);
    }
  }

  lemma WalkPathPlus(a: string, b: string)
    ensures WalkPath(a + "/" + b) == Walk(WalkPath(a), Parts(b))
  {
    PartsPlus(a, b);
    WalkPlus([], Parts(a), Parts(b));
  }

  lemma NameMore(name: string, init: string, c: char)
    requires c != '/' && Parts(init) == [init] && name == init + [c]
    ensures Parts(name) == [name]
  {
    PartsMore(init, c);
    assert Longer([init], c) == [name];
  }

  lemma LastChar(name: string) returns (init: string, c: char)
    requires name != "" && '/' !in name
    ensures name == init + [c] && '/' !in init && c != '/'
  {
    init, c := name[..|name| - 1], name[|name| - 1];
  }

  lemma {:induction false} PartsOfName(name: string)
    requires '/' !in name
    ensures Parts(name) == [name]
    decreases |name|
  {
    if name != "" {
      var init, c := LastChar(name);
      PartsOfName(init);
      NameMore(name, init, c);
    }
  }

  lemma {:induction false} WalkOne(stack: seq<string>, part: string)
    ensures Walk(stack, [part]) == Step(stack, part)
  {
    assert [part][..0] == [];
  }

  lemma WalkNothing()
    ensures WalkPath("") == [] && WalkPath("/") == []
  {
    WalkOne([], "");
    WalkPathPlus("", "");
    assert "" + "/" + "" == "/";
  }

  lemma WalkPathName(path: string, stack: seq<string>, name: string)
    requires WalkPath(path) == stack && IsName(name)
    ensures WalkPath(path + "/" + name) == stack + [name]
  {
    WalkPathPlus(path, name);
    PartsOfName(name);
    WalkOne(stack, name);
  }

  lemma ShowMore(stack: seq<string>, name: string)
    ensures Show(stack + [name]) == (if stack == [] then "" else Show(stack)) + "/" + name
  {
    assert (stack + [name])[..|stack|] == stack;
  }

  /** Walking along a shown path leads back to its names. */
  lemma {:induction false} WalkShown(stack: seq<string>)
    requires Names(stack)
    ensures WalkPath(Show(stack)) == stack
  {
    WalkNothing();
    if |stack| > 0 {
      var init, name := stack[..|stack| - 1], stack[|stack| - 1];
      assert stack == init + [name];
      WalkShown(init);
      WalkPathName(if init == [] then "" else Show(init), init, name);
      ShowMore(init, name);
    }
  }

  /** A resolved path is absolute and holds names only. */
  lemma ResolvedIsNormal(linkDir: string, target: string)
    requires target != ""
    ensures var stack := WalkPath(FullPath(linkDir, target));
            Names(stack) && Resolved(linkDir, target) == Show(stack) && WalkPath(Show(stack)) == stack
  {
    var path := FullPath(linkDir, target);
    PartsHoldNoSlash(path);
    WalkNames([], Parts(path));
    WalkShown(WalkPath(path));
  }

  lemma {:induction false} ShowStarts(stack: seq<string>)
    ensures Show(stack) != "" && Show(stack)[0] == '/'
  {
    if |stack| > 1 {
      ShowStarts(stack[..|stack| - 1]);
    }
  }

  /** Resolving a resolved path changes nothing, whatever the directory. */
  lemma ResolvedTwice(linkDir: string, target: string, otherDir: string)
    requires target != ""
    ensures Resolved(otherDir, Resolved(linkDir, target)) == Resolved(linkDir, target)
  {
    ResolvedIsNormal(linkDir, target);
    ShowStarts(WalkPath(FullPath(linkDir, target)));
  }

  lemma FullPathMore(linkDir: string, first: string, second: string)
    requires first != ""
    ensures FullPath(linkDir, first + "/" + second) == FullPath(linkDir, first) + "/" + second
  {
    assert (first + "/" + second)[0] == first[0];
    assert linkDir + "/" + (first + "/" + second) == linkDir + "/" + first + "/" + second;
  }

  /** Following a relative target from a resolved one is resolving both at once. */
  lemma ResolvedInSteps(linkDir: string, first: string, second: string)
    requires first != "" && second != "" && second[0] != '/'
    ensures Resolved(Resolved(linkDir, first), second) == Resolved(linkDir, first + "/" + second)
  {
    var path := FullPath(linkDir, first);
    ResolvedIsNormal(linkDir, first);
    WalkPathPlus(Show(WalkPath(path)), second);
    WalkPathPlus(path, second);
    FullPathMore(linkDir, first, second);
  }

  // ----- What the parts of a path do ------------------------------------------

  /** One part more. */
  lemma WalkPart(path: string, part: string)
    requires '/' !in part
    ensures WalkPath(path + "/" + part) == Step(WalkPath(path), part)
  {
    WalkPathPlus(path, part);
    PartsOfName(part);
    WalkOne(WalkPath(path), part);
  }

  lemma WalkUpAgain(path: string, name: string)
    requires IsName(name)
    ensures WalkPath(path + "/" + name + "/" + "..") == WalkPath(path)
  {
    var stack := WalkPath(path);
    WalkPathName(path, stack, name);
    WalkPart(path + "/" + name, "..");
    assert (stack + [name])[..|stack|] == stack;
  }

  /** Into a directory and up again is nowhere. */
  lemma UpFromName(linkDir: string, path: string, name: string)
    requires path != "" && IsName(name)
    ensures Resolved(linkDir, path + "/" + name + "/" + "..") == Resolved(linkDir, path)
  {
    var full := FullPath(linkDir, path);
    FullPathMore(linkDir, path, name);
    FullPathMore(linkDir, path + "/" + name, "..");
    WalkUpAgain(full, name);
  }

  /** Up from the root is the root, and so is up from what is resolved to it. */
  lemma UpFromRoot(linkDir: string, path: string)
    requires path != "" && Resolved(linkDir, path) == "/"
    ensures Resolved(linkDir, path + "/" + "..") == "/"
  {
    var full := FullPath(linkDir, path);
    ResolvedIsNormal(linkDir, path);
    ShowNames(WalkPath(full));
    FullPathMore(linkDir, path, "..");
    WalkPart(full, "..");
  }

  lemma ShowNames(stack: seq<string>)
    requires Names(stack)
    ensures Show(stack) == "/" <==> stack == []
  {
    if |stack| > 0 {
      var init, last := stack[..|stack| - 1], stack[|stack| - 1];
      assert stack == init + [last];
      ShowMore(init, last);
      assert |Show(stack)| >= 1 + |last|;
    }
  }

  /** A dot and an empty part change nothing. */
  lemma StayHere(linkDir: string, path: string)
    requires path != ""
    ensures Resolved(linkDir, path + "/" + ".") == Resolved(linkDir, path) == Resolved(linkDir, path + "/" + "")
  {
    var full := FullPath(linkDir, path);
    FullPathMore(linkDir, path, ".");
    FullPathMore(linkDir, path, "");
    WalkPart(full, ".");
    WalkPart(full, "");
  }

  /** The names, each behind a slash. */
  function Spelled(names: seq<string>): string {
    if names == [] then "" else Spelled(names[..|names| - 1]) + "/" + names[|names| - 1]
  }

  lemma {:induction false} ShowSpelled(names: seq<string>)
    ensures names != [] ==> Show(names) == Spelled(names)
  {
    if |names| > 0 {
      var init, last := names[..|names| - 1], names[|names| - 1];
      assert names == init + [last];
      ShowSpelled(init);
      ShowMore(init, last);
    }
  }

  /** A path of names is resolved to itself; any other directory does not matter. */
  lemma NamesStay(linkDir: string, names: seq<string>)
    requires Names(names) && names != []
    ensures Resolved(linkDir, Spelled(names)) == Spelled(names)
  {
    WalkShown(names);
    ShowSpelled(names);
    ShowStarts(names);
  }

  /** A name below a resolved path stands behind it. */
  lemma NameBelow(linkDir: string, path: string, name: string)
    requires path != "" && IsName(name)
    ensures var above := Resolved(linkDir, path);
            Resolved(linkDir, path + "/" + name) == (if above == "/" then "" else above) + "/" + name
  {
    var full := FullPath(linkDir, path);
    var stack := WalkPath(full);
    FullPathMore(linkDir, path, name);
    WalkPathName(full, stack, name);
    ShowMore(stack, name);
    ResolvedIsNormal(linkDir, path);
    ShowNames(stack);
  }

  /** A relative target starts at the directory, an absolute one does not. */
  lemma WhereItStarts(linkDir: string, target: string, otherDir: string)
    requires target != ""
    ensures target[0] == '/' ==> Resolved(linkDir, target) == Resolved(otherDir, target)
    ensures target[0] != '/' && linkDir != "" && linkDir[0] == '/' ==>
              Resolved(linkDir, target) == Resolved(otherDir, linkDir + "/" + target)
  {
  }

  /** Two directories up, and a name. */
  lemma TwoUp(top: string, first: string, second: string, name: string)
    requires top != "" && top[0] == '/' && IsName(first) && IsName(second) && IsName(name)
    ensures Resolved(top + "/" + first + "/" + second, ".." + "/" + ".." + "/" + name) == Resolved("", top + "/" + name)
  {
    var middle := top + "/" + first;
    var dir := middle + "/" + second;
    var target := ".." + "/" + ".." + "/" + name;
    assert dir + "/" + target == (dir + "/" + "..") + "/" + ".." + "/" + name;
    WalkUpAgain(middle, second);
    WalkPart(dir + "/" + "..", "..");
    WalkPart(middle, "..");
    WalkUpAgain(top, first);
    WalkPart((dir + "/" + "..") + "/" + "..", name);
    WalkPart(top, name);
    assert target[0] != '/';
  }

  lemma UsualNames(dev: string, disk: string, uuid: string, name: string)
    requires dev == "dev" && disk == "disk" && uuid == "by-uuid" && name == "sda1"
    ensures IsName(dev) && IsName(disk) && IsName(uuid) && IsName(name)
  {
  }

  lemma TwoSpelled(a: string, b: string)
    ensures Spelled([a]) == "/" + a && Spelled([a, b]) == "/" + a + "/" + b
  {
    assert [a][..0] == [] && [a, b][..1] == [a];
    assert "" + "/" + a == "/" + a;
  }

  /** The usual content of the directories of links. */
  lemma UsualLink()
    ensures Resolved("/dev/disk/by-uuid", "../../sda1") == "/dev/sda1"
  {
    var dev, disk, uuid, name := "dev", "disk", "by-uuid", "sda1";
    UsualNames(dev, disk, uuid, name);
    UsualPaths(dev, disk, uuid, name);
    DeviceFound(dev, disk, uuid, name, "/" + dev);
  }

  lemma UsualPaths(dev: string, disk: string, uuid: string, name: string)
    requires dev == "dev" && disk == "disk" && uuid == "by-uuid" && name == "sda1"
    ensures "/" + dev + "/" + disk + "/" + uuid == "/dev/disk/by-uuid"
    ensures ".." + "/" + ".." + "/" + name == "../../sda1" && "/" + dev + "/" + name == "/dev/sda1"
  {
  }

  lemma DeviceFound(dev: string, disk: string, uuid: string, name: string, top: string)
    requires IsName(dev) && IsName(disk) && IsName(uuid) && IsName(name) && top == "/" + dev
    ensures Resolved(top + "/" + disk + "/" + uuid, ".." + "/" + ".." + "/" + name) == top + "/" + name
  {
    TwoUp(top, disk, uuid, name);
    TwoSpelled(dev, name);
    NamesStay("", [dev, name]);
  }
}
