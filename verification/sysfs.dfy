/**
 * The sysfs discovery primitives of the dranet network inventory: resolving
 * the link that names a network interface, telling software interfaces from
 * hardware ones, reading a device's SR-IOV counters, its NUMA node and its
 * PCI vendor, and looking that vendor up in the PCI database.
 *
 * The filesystem is a value. `files` maps a path to the bytes a read of it
 * returns (the kernel follows links on the way, so a path through a link
 * is listed under the path as written); `links` maps the path of a symbolic
 * link to its target. A path missing from a map cannot be read.
 */
module Inventory {
  import opened Results
  import opened Text
  import opened Paths
  import opened Decimal

  /** The directory holding one symbolic link per network interface. */
  const SysnetPath: string := "/sys/class/net/"

  /** The root of the device tree those links point into. */
  const SysdevPath: string := "/sys/devices"

  datatype Sysfs = Sysfs(files: map<string, string>, links: map<string, string>)

  /** Why a primitive failed: a path it could not read, content it could not parse, or the PCI database's answer. */
  datatype Error =
    | PathError(op: string, path: string)
    | ParseError(cause: NumError)
    | LookupError(reason: string)

  /** os.ReadFile. */
  function ReadFile(fs: Sysfs, path: string): (r: Result<string, Error>)
    ensures r.Ok? <==> path in fs.files
    ensures r.Ok? ==> r.value == fs.files[path]
    ensures r.Err? ==> r.error == PathError("open", path)
  {
    if path in fs.files then Ok(fs.files[path]) else Err(PathError("open", path))
  }

  /** os.Readlink. */
  function Readlink(fs: Sysfs, path: string): (r: Result<string, Error>)
    ensures r.Ok? <==> path in fs.links
    ensures r.Ok? ==> r.value == fs.links[path]
    ensures r.Err? ==> r.error == PathError("readlink", path)
  {
    if path in fs.links then Ok(fs.links[path]) else Err(PathError("readlink", path))
  }

  // ---------------------------------------------------------------------
  // The primitives
  // ---------------------------------------------------------------------

  /**
   * realpath: where the link `syspath/ifName` points. An absolute target is
   * returned as it is, a relative one is taken from the link's directory.
   * A link that cannot be read counts as the empty target.
   */
  function Realpath(fs: Sysfs, ifName: string, syspath: string): string {
    var linkPath := Join([syspath, ifName]);
    var dst := match Readlink(fs, linkPath) case Ok(t) => t case Err(_) => "";
    if IsAbs(dst) then dst else Join([Dir(linkPath), dst])
  }

  /** isVirtual: the resolved link starts with the string "/sys/devices/virtual". */
  predicate IsVirtual(fs: Sysfs, name: string, syspath: string) {
    Join([SysdevPath, "virtual"]) <= Realpath(fs, name, syspath)
  }

  /** The counter file `file` below the interface's link, as a decimal number; 0 when it cannot be read or parsed. */
  function SriovCounter(fs: Sysfs, name: string, file: string): (n: int)
    ensures InRange(n, 64)
  {
    match ReadFile(fs, Join([SysnetPath, name, file]))
    case Err(_) => 0
    case Ok(contents) =>
      AtoiCorrect(TrimSpace(contents));
      match Atoi(TrimSpace(contents))
      case Err(_) => 0
      case Ok(t) => t
  }

  /** sriovTotalVFs: the number of virtual functions the device supports. */
  function SriovTotalVFs(fs: Sysfs, name: string): int {
    SriovCounter(fs, name, "/device/sriov_totalvfs")
  }

  /** sriovNumVFs: the number of virtual functions currently enabled. */
  function SriovNumVFs(fs: Sysfs, name: string): int {
    SriovCounter(fs, name, "/device/sriov_numvfs")
  }

  /** numaNode: the device's `numa_node` file as a signed 32-bit decimal; read and parse errors are returned. */
  function NumaNode(fs: Sysfs, devicePath: string): (r: Result<int, Error>)
    ensures r.Ok? ==> InRange(r.value, 32)
  {
    match ReadFile(fs, Join([devicePath, "numa_node"]))
    case Err(e) => Err(e)
    case Ok(contents) =>
      ParseIntCorrect(TrimSpace(contents), 32);
      match ParseInt(TrimSpace(contents), 32)
      case Err(e) => Err(ParseError(e))
      case Ok(numa) => Ok(numa)
  }

  /** An identifier as the PCI database expects it: white space trimmed, then one "0x" removed. */
  function NormalizeId(raw: string): string {
    TrimPrefix(TrimSpace(raw), "0x")
  }

  /**
   * ids: the PCI database entry for the device's vendor. `getDevice` is the
   * database lookup, called with the vendor, device, subsystem vendor and
   * subsystem device identifiers. Only the vendor file is read; the other
   * three identifiers stay empty.
   */
  function Ids<Entry>(fs: Sysfs, devicePath: string,
                      getDevice: (string, string, string, string) -> Result<Entry, Error>): Result<Entry, Error> {
    var device, subsystemVendor, subsystemDevice := "", "", "";
    match ReadFile(fs, Join([devicePath, "vendor"]))
    case Err(e) => Err(e)
    case Ok(vendor) =>
      match getDevice(NormalizeId(vendor), NormalizeId(device), NormalizeId(subsystemVendor), NormalizeId(subsystemDevice))
      case Err(e) => Err(e)
      case Ok(entry) => Ok(entry)
  }

  // ---------------------------------------------------------------------
  // Paths under /sys
  // ---------------------------------------------------------------------

  /** The components of the interface directory. */
  const SysnetElems: seq<string> := ["sys", "class", "net"]

  lemma SysClassNet()
    ensures AbsPath(SysnetElems) == "/sys/class/net"
    ensures CleanElems(SysnetElems, true)
    ensures SysnetPath == AbsPath(SysnetElems) + "/"
  {
    AbsPathChild(["sys"], "class");
    assert ["sys"] + ["class"] == ["sys", "class"];
    AbsPathChild(["sys", "class"], "net");
    assert ["sys", "class"] + ["net"] == SysnetElems;
  }

  lemma SysDevices()
    ensures AbsPath(["sys", "devices"]) == SysdevPath
    ensures CleanElems(["sys", "devices"], true)
  {
    AbsPathChild(["sys"], "devices");
    assert ["sys"] + ["devices"] == ["sys", "devices"];
  }

  /** Joining the interface directory and a path is cleaning their concatenation. */
  lemma JoinSysnet(q: string)
    ensures Join([SysnetPath, q]) == Clean(SysnetPath + q)
  {
    var e := SysnetElems;
    calc {
      Join([SysnetPath, q]);
    == { SysClassNet(); assert JoinSep([SysnetPath, q]) == AbsPath(e) + "/" + ("/" + q); }
      Clean(AbsPath(e) + "/" + ("/" + q));
    == { SysClassNet(); CleanSkipEmpty(e, q); }
      Clean(AbsPath(e) + "/" + q);
    == { SysClassNet(); }
      Clean(SysnetPath + q);
    }
  }

  /** The link of a plainly named interface is the interface directory followed by the name. */
  lemma InterfaceLink(name: string)
    requires IsName(name)
    ensures Join([SysnetPath, name]) == SysnetPath + name
    ensures Dir(SysnetPath + name) == AbsPath(SysnetElems)
  {
    var e := SysnetElems;
    calc {
      Join([SysnetPath, name]);
    == { JoinSysnet(name); }
      Clean(SysnetPath + name);
    == { SysClassNet(); }
      Clean(AbsPath(e) + "/" + name);
    == { SysClassNet(); AbsPathChild(e, name); }
      Clean(AbsPath(e + [name]));
    == { SysClassNet(); NamesAreClean(e + [name]); AbsPathIsClean(e + [name]); }
      AbsPath(e + [name]);
    == { SysClassNet(); AbsPathChild(e, name); }
      SysnetPath + name;
    }
    calc {
      Dir(SysnetPath + name);
    == { SysClassNet(); DirOfChild(AbsPath(e), name); }
      Clean(AbsPath(e) + "/");
    == { CleanTrailingSep(AbsPath(e)); }
      Clean(AbsPath(e));
    == { SysClassNet(); AbsPathIsClean(e); }
      AbsPath(e);
    }
  }

  /** A clean absolute path followed by two names is clean. */
  lemma CleanTwoNames(cs: seq<string>, a: string, b: string)
    requires CleanElems(cs, true) && cs != [] && IsName(a) && IsName(b)
    ensures Clean(AbsPath(cs) + "/" + (a + "/" + b)) == AbsPath(cs) + "/" + a + "/" + b
  {
    AbsPathChild(cs, a);
    AbsPathChild(cs + [a], b);
    assert AbsPath(cs) + "/" + (a + "/" + b) == AbsPath(cs + [a] + [b]);
    NamesAreClean(cs + [a] + [b]);
    AbsPathIsClean(cs + [a] + [b]);
  }

  /** The directory of a plainly named interface, as components. */
  lemma InterfaceDir(name: string)
    requires IsName(name)
    ensures CleanElems(SysnetElems + [name], true)
    ensures AbsPath(SysnetElems + [name]) == SysnetPath + name
  {
    SysClassNet();
    NamesAreClean(SysnetElems + [name]);
    AbsPathChild(SysnetElems, name);
  }

  lemma CounterJoinSep(name: string, file: string)
    ensures JoinSep([SysnetPath, name, "/device/" + file])
         == AbsPath(SysnetElems) + "/" + ("/" + (name + "/" + ("/" + ("device" + "/" + file))))
  {
    var q := "device" + "/" + file;
    SysClassNet();
    assert "/device/" + file == "/" + q;
    JoinSepThree(SysnetPath, name, "/device/" + file);
    var x := name + "/" + ("/" + q);
    assert SysnetPath + "/" + x == AbsPath(SysnetElems) + "/" + ("/" + x);
  }

  /**
   * The SR-IOV counter files of a plainly named interface: the leading '/'
   * of the file argument adds nothing to the path.
   */
  lemma SriovCounterPath(name: string, file: string)
    requires IsName(name) && IsName(file)
    ensures Join([SysnetPath, name, "/device/" + file]) == SysnetPath + name + "/device/" + file
  {
    var e := SysnetElems;
    var en := e + [name];
    var q := "device" + "/" + file;
    InterfaceDir(name);
    calc {
      Join([SysnetPath, name, "/device/" + file]);
    == { CounterJoinSep(name, file); }
      Clean(AbsPath(e) + "/" + ("/" + (name + "/" + ("/" + q))));
    == { SysClassNet(); CleanSkipEmpty(e, name + "/" + ("/" + q)); }
      Clean(AbsPath(e) + "/" + (name + "/" + ("/" + q)));
    == { SysClassNet();
         AbsPathChild(e, name);
         assert AbsPath(e) + "/" + (name + "/" + ("/" + q)) == (AbsPath(e) + "/" + name) + "/" + ("/" + q);
       }
      Clean(AbsPath(en) + "/" + ("/" + q));
    == { CleanSkipEmpty(en, q); }
      Clean(AbsPath(en) + "/" + q);
    == { CleanTwoNames(en, "device", file); }
      AbsPath(en) + "/" + "device" + "/" + file;
    == { assert "/" + "device" + "/" == "/device/"; }
      SysnetPath + name + "/device/" + file;
    }
  }

  /** The prefix isVirtual looks for. */
  lemma VirtualPrefix()
    ensures Join([SysdevPath, "virtual"]) == "/sys/devices/virtual"
  {
    var e := ["sys", "devices"];
    calc {
      Join([SysdevPath, "virtual"]);
    == { SysDevices(); JoinAbsRelative(e, "virtual"); }
      AbsPath(Resolve(e, Split("virtual"), true));
    == { SplitJoinSep(["virtual"]); }
      AbsPath(Resolve(e, ["virtual"], true));
    ==
      AbsPath(e + ["virtual"]);
    == { AbsPathChild(e, "virtual"); SysDevices(); }
      SysdevPath + "/" + "virtual";
    }
  }

  // ---------------------------------------------------------------------
  // realpath and isVirtual
  // ---------------------------------------------------------------------

  /** An absolute link target is the resolved path as it is, whatever directory holds the link. */
  lemma RealpathAbsoluteTarget(fs: Sysfs, ifName: string, syspath: string)
    ensures var link := Join([syspath, ifName]);
            link in fs.links && IsAbs(fs.links[link]) ==> Realpath(fs, ifName, syspath) == fs.links[link]
  {
  }

  /**
   * Below an absolute directory, the resolved link is absolute. It is the
   * link's target when that is absolute, and a clean path otherwise: the
   * relative target is taken from the directory holding the link.
   */
  lemma RealpathIsAbsolute(fs: Sysfs, ifName: string, syspath: string)
    requires IsAbs(syspath)
    ensures IsAbs(Realpath(fs, ifName, syspath))
    ensures var link := Join([syspath, ifName]);
            link in fs.links && IsAbs(fs.links[link]) ==> Realpath(fs, ifName, syspath) == fs.links[link]
    ensures var link := Join([syspath, ifName]);
            !(link in fs.links && IsAbs(fs.links[link])) ==> IsClean(Realpath(fs, ifName, syspath))
  {
    var link := Join([syspath, ifName]);
    assert JoinSep([syspath, ifName]) == syspath + "/" + ifName;
    assert (syspath + "/" + ifName)[0] == '/';
    CleanIsClean(syspath + "/" + ifName);
    var d := Dir(link);
    DirIsClean(link);
    var dst := if link in fs.links then fs.links[link] else "";
    if !IsAbs(dst) {
      assert JoinSep([d, dst]) == d + "/" + dst;
      assert (d + "/" + dst)[0] == '/';
      CleanIsClean(d + "/" + dst);
    }
  }

  /** A relative path taken from the interface directory. */
  lemma FromSysnet(dst: string)
    ensures Join([AbsPath(SysnetElems), dst]) == Clean(SysnetPath + dst)
    ensures Clean(SysnetPath + "") == "/sys/class/net"
  {
    var e := SysnetElems;
    SysClassNet();
    JoinAbsRelative(e, dst);
    CleanAbsAppend(e, dst);
    CleanAbsAppend(e, "");
    assert Split("") == [""];
    assert [""][1..] == [];
    assert Resolve(e, [""], true) == Resolve(e, [], true) == e;
  }

  /**
   * For an interface with a plain name, the link is `/sys/class/net/<name>`
   * and a relative target is read from `/sys/class/net/`. An unreadable
   * link leaves the directory itself.
   */
  lemma RealpathUnderSysnet(fs: Sysfs, name: string)
    requires IsName(name)
    ensures var link := SysnetPath + name;
            link in fs.links && IsAbs(fs.links[link]) ==> Realpath(fs, name, SysnetPath) == fs.links[link]
    ensures var link := SysnetPath + name;
            link in fs.links && !IsAbs(fs.links[link]) ==>
              Realpath(fs, name, SysnetPath) == Clean(SysnetPath + fs.links[link])
    ensures SysnetPath + name !in fs.links ==> Realpath(fs, name, SysnetPath) == "/sys/class/net"
  {
    var link := SysnetPath + name;
    InterfaceLink(name);
    var dst := if link in fs.links then fs.links[link] else "";
    FromSysnet(dst);
  }

  /** An interface whose link cannot be read resolves to the interface directory, which is not virtual. */
  lemma UnreadableLinkNotVirtual(fs: Sysfs, name: string)
    requires IsName(name) && SysnetPath + name !in fs.links
    ensures !IsVirtual(fs, name, SysnetPath) && !IsVirtualDevice(fs, name, SysnetPath)
  {
    RealpathUnderSysnet(fs, name);
    VirtualPrefix();
    assert |"/sys/devices/virtual"| > |"/sys/class/net"|;
    VirtualDeviceIsVirtual(fs, name, SysnetPath);
  }

  /** A relative target below `../../devices/` leads from the interface directory into the device tree. */
  lemma ClassNetToDevices(r: string)
    ensures Clean(SysnetPath + ("../../devices/" + r)) == Clean(SysdevPath + "/" + r)
  {
    var sc := ["sys", "class"];
    calc {
      Clean(SysnetPath + ("../../devices/" + r));
    == { SysClassNet();
         assert sc + ["net"] == SysnetElems;
         assert SysnetPath + ("../../devices/" + r) == AbsPath(sc + ["net"]) + "/" + (".." + "/" + (".." + "/" + ("devices" + "/" + r)));
       }
      Clean(AbsPath(sc + ["net"]) + "/" + (".." + "/" + (".." + "/" + ("devices" + "/" + r))));
    == { SysClassNet(); assert sc + ["net"] == SysnetElems; CleanParent(sc, "net", ".." + "/" + ("devices" + "/" + r)); }
      Clean(AbsPath(sc) + "/" + (".." + "/" + ("devices" + "/" + r)));
    == { assert ["sys"] + ["class"] == sc; CleanParent(["sys"], "class", "devices" + "/" + r); }
      Clean(AbsPath(["sys"]) + "/" + ("devices" + "/" + r));
    == { SysDevices();
         AbsPathChild(["sys"], "devices");
         assert ["sys"] + ["devices"] == ["sys", "devices"];
         var a := AbsPath(["sys"]);
         assert a + "/" + ("devices" + "/" + r) == (a + "/" + "devices") + "/" + r;
       }
      Clean(SysdevPath + "/" + r);
    }
  }

  /** The components of the virtual device directory. */
  const VirtualElems: seq<string> := ["sys", "devices", "virtual"]

  lemma SysDevicesVirtual()
    ensures AbsPath(VirtualElems) == "/sys/devices/virtual"
    ensures CleanElems(VirtualElems, true)
  {
    SysDevices();
    AbsPathChild(["sys", "devices"], "virtual");
    assert ["sys", "devices"] + ["virtual"] == VirtualElems;
  }

  /**
   * A path below `/sys/devices/` whose first component does not start with
   * "virtual" does not start with the string "/sys/devices/virtual".
   */
  lemma OutsideVirtual(top: string, rest: string)
    requires !("virtual" <= top)
    ensures !("/sys/devices/virtual" <= "/sys/devices/" + (top + "/" + rest))
  {
    var p := "/sys/devices/virtual";
    var s := "/sys/devices/" + (top + "/" + rest);
    assert |"/sys/devices/"| == 13;
    if |top| >= 7 {
      assert top[..7] != "virtual";
      var k :| 0 <= k < 7 && top[k] != "virtual"[k];
      assert s[13 + k] == top[k];
      assert p[13 + k] == "virtual"[k];
    } else {
      assert s[13 + |top|] == '/';
      assert p[13 + |top|] == "virtual"[|top|];
    }
  }

  /** The relative link of a software interface, resolved from the interface directory. */
  lemma VirtualLinkPath(name: string)
    requires IsName(name)
    ensures Clean(SysnetPath + ("../../devices/virtual/net/" + name)) == "/sys/devices/virtual" + ("/net/" + name)
  {
    var r := "virtual" + "/" + ("net" + "/" + name);
    assert "../../devices/virtual/net/" + name == "../../devices/" + r;
    assert "/sys/devices/virtual" + ("/net/" + name) == SysdevPath + "/" + r;
    ClassNetToDevices(r);
    SysDevices();
    JoinSepThree("virtual", "net", name);
    CleanNames(["sys", "devices"], ["virtual", "net", name]);
  }

  /** The hardware link and its resolution, regrouped by components. */
  lemma PciStrings(bus: string, address: string, name: string)
    ensures "../../devices/" + bus + "/" + address + "/net/" + name
         == "../../devices/" + (bus + "/" + (address + "/" + ("net" + "/" + name)))
    ensures "/sys/devices/" + bus + "/" + address + "/net/" + name
         == SysdevPath + "/" + (bus + "/" + (address + "/" + ("net" + "/" + name)))
  {
    assert "/net/" + name == "/" + ("net" + "/" + name);
  }

  /** The relative link of a hardware interface, resolved from the interface directory. */
  lemma PciLinkPath(name: string, bus: string, address: string)
    requires IsName(name) && IsName(bus) && IsName(address)
    ensures Clean(SysnetPath + ("../../devices/" + bus + "/" + address + "/net/" + name))
         == "/sys/devices/" + bus + "/" + address + "/net/" + name
  {
    var r := bus + "/" + (address + "/" + ("net" + "/" + name));
    PciStrings(bus, address, name);
    ClassNetToDevices(r);
    SysDevices();
    JoinSepFour(bus, address, "net", name);
    CleanNames(["sys", "devices"], [bus, address, "net", name]);
  }

  /** A software interface: its link leads to `/sys/devices/virtual/net/<name>`. */
  lemma VirtualInterface(fs: Sysfs, name: string)
    requires IsName(name)
    requires SysnetPath + name in fs.links
    requires fs.links[SysnetPath + name] == "../../devices/virtual/net/" + name
    ensures Realpath(fs, name, SysnetPath) == "/sys/devices/virtual/net/" + name
    ensures IsVirtual(fs, name, SysnetPath)
  {
    RealpathUnderSysnet(fs, name);
    assert fs.links[SysnetPath + name][0] == '.';
    VirtualLinkPath(name);
    VirtualPrefix();
  }

  /** A hardware interface: its link leads to `/sys/devices/<bus>/<address>/net/<name>`. */
  lemma PciInterface(fs: Sysfs, name: string, bus: string, address: string)
    requires IsName(name) && IsName(bus) && IsName(address) && !("virtual" <= bus)
    requires SysnetPath + name in fs.links
    requires fs.links[SysnetPath + name] == "../../devices/" + bus + "/" + address + "/net/" + name
    ensures Realpath(fs, name, SysnetPath) == "/sys/devices/" + bus + "/" + address + "/net/" + name
    ensures !IsVirtual(fs, name, SysnetPath)
  {
    RealpathUnderSysnet(fs, name);
    assert fs.links[SysnetPath + name][0] == '.';
    PciLinkPath(name, bus, address);
    PciOutsideVirtual(bus, address, name);
    VirtualPrefix();
  }

  lemma PciOutsideVirtual(bus: string, address: string, name: string)
    requires !("virtual" <= bus)
    ensures !("/sys/devices/virtual" <= "/sys/devices/" + bus + "/" + address + "/net/" + name)
  {
    var rest := address + "/net/" + name;
    assert "/sys/devices/" + bus + "/" + address + "/net/" + name == "/sys/devices/" + (bus + "/" + rest);
    OutsideVirtual(bus, rest);
  }

  /**
   * A component-wise classification: the resolved path is the virtual
   * device directory itself or lies below it, compared component by
   * component rather than character by character.
   */
  predicate UnderVirtual(p: string) {
    var v := Join([SysdevPath, "virtual"]);
    p == v || v + "/" <= p
  }

  predicate IsVirtualDevice(fs: Sysfs, name: string, syspath: string) {
    UnderVirtual(Realpath(fs, name, syspath))
  }

  /** On clean absolute paths, UnderVirtual is exactly "the first three components are sys, devices, virtual". */
  lemma UnderVirtualComponentwise(cs: seq<string>)
    requires CleanElems(cs, true)
    ensures UnderVirtual(AbsPath(cs)) <==> |cs| >= 3 && cs[..3] == VirtualElems
  {
    var ve := VirtualElems;
    var v := AbsPath(ve);
    VirtualPrefix();
    SysDevicesVirtual();
    AbsPathSplit(ve);
    if |cs| >= 3 && cs[..3] == ve {
      if |cs| > 3 {
        assert cs == ve + cs[3..];
        AbsPathAppend(ve, cs[3..]);
      } else {
        assert cs == ve;
      }
    }
    if UnderVirtual(AbsPath(cs)) {
      assert cs != [] by { assert |AbsPath(cs)| >= |v| > 1; }
      AbsPathSplit(cs);
      if AbsPath(cs) == v {
        assert [""] + cs == [""] + ve;
        assert cs == ([""] + cs)[1..];
      } else {
        var p := AbsPath(cs);
        var w := p[|v| + 1..];
        assert p == v + "/" + w;
        SplitAppend(v, w);
        assert [""] + cs == [""] + (ve + Split(w));
        assert cs == ([""] + cs)[1..] == ve + Split(w);
        assert cs[..3] == ve;
      }
    }
  }

  /** The component-wise classification never says "virtual" where the code says "physical". */
  lemma VirtualDeviceIsVirtual(fs: Sysfs, name: string, syspath: string)
    ensures IsVirtualDevice(fs, name, syspath) ==> IsVirtual(fs, name, syspath)
  {
  }

  /**
   * As written, isVirtual compares characters: a device directory whose name
   * merely starts with "virtual" is classified as virtual.
   */
  lemma VirtualPrefixCollision(fs: Sysfs, name: string)
    requires IsName(name)
    requires SysnetPath + name in fs.links
    requires fs.links[SysnetPath + name] == "/sys/devices/virtualfoo/net/" + name
    ensures IsVirtual(fs, name, SysnetPath)
    ensures !IsVirtualDevice(fs, name, SysnetPath)
  {
    RealpathUnderSysnet(fs, name);
    VirtualPrefix();
    var p := "/sys/devices/virtualfoo/net/" + name;
    assert p == "/sys/devices/virtual" + ("foo/net/" + name);
    assert p[20] == 'f';
  }

  /** The two classifications agree on the links the kernel creates for software and hardware interfaces. */
  lemma ClassificationsAgree(fs: Sysfs, name: string, bus: string, address: string)
    requires IsName(name) && IsName(bus) && IsName(address) && !("virtual" <= bus)
    requires SysnetPath + name in fs.links
    ensures fs.links[SysnetPath + name] == "../../devices/virtual/net/" + name ==>
              IsVirtualDevice(fs, name, SysnetPath) && IsVirtual(fs, name, SysnetPath)
    ensures fs.links[SysnetPath + name] == "../../devices/" + bus + "/" + address + "/net/" + name ==>
              !IsVirtualDevice(fs, name, SysnetPath) && !IsVirtual(fs, name, SysnetPath)
  {
    VirtualPrefix();
    if fs.links[SysnetPath + name] == "../../devices/virtual/net/" + name {
      VirtualInterface(fs, name);
      assert "/sys/devices/virtual/net/" + name == "/sys/devices/virtual" + "/" + ("net/" + name);
    }
    if fs.links[SysnetPath + name] == "../../devices/" + bus + "/" + address + "/net/" + name {
      PciInterface(fs, name, bus, address);
    }
  }

  // ---------------------------------------------------------------------
  // SR-IOV counters
  // ---------------------------------------------------------------------

  /** What a counter file's contents mean: a decimal numeral that fits 64 bits, 0 for anything else. */
  function CounterValue(contents: string): int {
    var t := TrimSpace(contents);
    if IsDecimal(t) && InRange(DecimalValue(t), 64) then DecimalValue(t) else 0
  }

  /** A counter is the meaning of its file, and 0 when the file cannot be read. */
  lemma SriovCounterCorrect(fs: Sysfs, name: string, file: string)
    ensures var p := Join([SysnetPath, name, file]);
            SriovCounter(fs, name, file) == if p in fs.files then CounterValue(fs.files[p]) else 0
  {
    var p := Join([SysnetPath, name, file]);
    if p in fs.files {
      AtoiCorrect(TrimSpace(fs.files[p]));
    }
  }

  /** sriovTotalVFs reads `/sys/class/net/<name>/device/sriov_totalvfs`. */
  lemma SriovTotalVFsCorrect(fs: Sysfs, name: string)
    requires IsName(name)
    ensures var p := SysnetPath + name + "/device/sriov_totalvfs";
            SriovTotalVFs(fs, name) == if p in fs.files then CounterValue(fs.files[p]) else 0
  {
    assert IsName("sriov_totalvfs");
    SriovCounterPath(name, "sriov_totalvfs");
    assert "/device/" + "sriov_totalvfs" == "/device/sriov_totalvfs";
    assert SysnetPath + name + "/device/" + "sriov_totalvfs" == SysnetPath + name + "/device/sriov_totalvfs";
    SriovCounterCorrect(fs, name, "/device/sriov_totalvfs");
  }

  /** sriovNumVFs reads `/sys/class/net/<name>/device/sriov_numvfs`. */
  lemma SriovNumVFsCorrect(fs: Sysfs, name: string)
    requires IsName(name)
    ensures var p := SysnetPath + name + "/device/sriov_numvfs";
            SriovNumVFs(fs, name) == if p in fs.files then CounterValue(fs.files[p]) else 0
  {
    assert IsName("sriov_numvfs");
    SriovCounterPath(name, "sriov_numvfs");
    assert "/device/" + "sriov_numvfs" == "/device/sriov_numvfs";
    assert SysnetPath + name + "/device/" + "sriov_numvfs" == SysnetPath + name + "/device/sriov_numvfs";
    SriovCounterCorrect(fs, name, "/device/sriov_numvfs");
  }

  /** A numeral padded with white space, as the kernel writes it, means its value. */
  lemma CounterValuePadded(a: string, digits: string, b: string)
    requires AllSpace(a) && AllSpace(b) && IsTrimmed(digits)
    requires IsDecimal(digits) && InRange(DecimalValue(digits), 64)
    ensures CounterValue(a + digits + b) == DecimalValue(digits)
  {
    TrimSpacePadded(a, digits, b);
  }

  lemma SmallNumerals()
    ensures IsDecimal("0") && DecimalValue("0") == 0
    ensures IsDecimal("4") && DecimalValue("4") == 4
    ensures IsDecimal("-1") && DecimalValue("-1") == -1
    ensures IsDecimal("64") && DecimalValue("64") == 64
  {
    assert Magnitude("-1") == "1";
    assert "64"[..1] == "6";
  }

  lemma Numeral21474()
    ensures AllDigits("21474") && Value("21474") == 21474
  {
    assert Value("21") == 21;
    ValueAppend("21", '4'); assert "21" + ['4'] == "214";
    ValueAppend("214", '7'); assert "214" + ['7'] == "2147";
    ValueAppend("2147", '4'); assert "2147" + ['4'] == "21474";
  }

  /** 2^31, one past the largest signed 32-bit value. */
  lemma Numeral2147483648()
    ensures IsDecimal("2147483648") && DecimalValue("2147483648") == 2147483648
  {
    Numeral21474();
    assert Magnitude("2147483648") == "2147483648";
    ValueAppend("21474", '8'); assert "21474" + ['8'] == "214748";
    ValueAppend("214748", '3'); assert "214748" + ['3'] == "2147483";
    ValueAppend("2147483", '6'); assert "2147483" + ['6'] == "21474836";
    ValueAppend("21474836", '4'); assert "21474836" + ['4'] == "214748364";
    ValueAppend("214748364", '8'); assert "214748364" + ['8'] == "2147483648";
  }

  /** Counter contents as the kernel writes them: a numeral and a newline. */
  lemma CounterValueExamples(contents: string)
    ensures contents == "64\n" ==> CounterValue(contents) == 64
    ensures contents == "4\n" ==> CounterValue(contents) == 4
  {
    SmallNumerals();
    if contents == "64\n" {
      assert contents == "" + "64" + "\n";
      CounterValuePadded("", "64", "\n");
    } else if contents == "4\n" {
      assert contents == "" + "4" + "\n";
      CounterValuePadded("", "4", "\n");
    }
  }

  /** A negative numeral is passed through: nothing checks that a count is not negative. */
  lemma CounterValueNegative(contents: string)
    ensures contents == "-1\n" ==> CounterValue(contents) == -1
  {
    if contents == "-1\n" {
      SmallNumerals();
      assert IsTrimmed("-1");
      assert contents == "" + "-1" + "\n";
      CounterValuePadded("", "-1", "\n");
    }
  }

  /** Contents that are not a numeral count as 0. */
  lemma CounterValueFallback(contents: string)
    ensures contents == "" ==> CounterValue(contents) == 0
    ensures contents == "n/a\n" ==> CounterValue(contents) == 0
  {
    if contents == "n/a\n" {
      assert IsTrimmed("n/a");
      assert contents == "" + "n/a" + "\n";
      TrimSpacePadded("", "n/a", "\n");
      assert !IsDigit("n/a"[0]);
    }
  }

  // ---------------------------------------------------------------------
  // NUMA node
  // ---------------------------------------------------------------------

  /**
   * numaNode fails with the read error when `numa_node` cannot be read.
   * Otherwise it succeeds exactly when the trimmed contents are a numeral
   * that fits 32 bits, with that numeral's value, and fails with a parse
   * error naming the trimmed contents when they are not: a range error for
   * a numeral out of range, and for text whose leading run of digits does
   * not even fit 32 unsigned bits; a syntax error for any other text.
   */
  lemma NumaNodeCorrect(fs: Sysfs, devicePath: string)
    ensures var p := Join([devicePath, "numa_node"]);
            p !in fs.files ==> NumaNode(fs, devicePath) == Err(PathError("open", p))
    ensures var p := Join([devicePath, "numa_node"]);
            p in fs.files ==>
              var t := TrimSpace(fs.files[p]);
              && (NumaNode(fs, devicePath).Ok? <==> IsDecimal(t) && InRange(DecimalValue(t), 32))
              && (NumaNode(fs, devicePath).Ok? ==> NumaNode(fs, devicePath).value == DecimalValue(t))
              && (NumaNode(fs, devicePath).Err? ==>
                    NumaNode(fs, devicePath).error.ParseError? && NumaNode(fs, devicePath).error.cause.num == t)
              && (IsDecimal(t) && !InRange(DecimalValue(t), 32) ==>
                    NumaNode(fs, devicePath) == Err(ParseError(NumError(t, ErrRange))))
              && (!IsDecimal(t) ==>
                    NumaNode(fs, devicePath) ==
                      Err(ParseError(NumError(t, if Value(LeadingDigits(Magnitude(t))) > MaxUint(32) then ErrRange else ErrSyntax))))
  {
    var p := Join([devicePath, "numa_node"]);
    if p in fs.files {
      ParseIntCorrect(TrimSpace(fs.files[p]), 32);
    }
  }

  /** numaNode of a numeral written with surrounding white space. */
  lemma NumaNodePadded(fs: Sysfs, devicePath: string, a: string, t: string, b: string)
    requires Join([devicePath, "numa_node"]) in fs.files
    requires fs.files[Join([devicePath, "numa_node"])] == a + t + b
    requires AllSpace(a) && AllSpace(b) && IsTrimmed(t)
    ensures IsDecimal(t) && InRange(DecimalValue(t), 32) ==> NumaNode(fs, devicePath) == Ok(DecimalValue(t))
    ensures IsDecimal(t) && !InRange(DecimalValue(t), 32) ==>
              NumaNode(fs, devicePath) == Err(ParseError(NumError(t, ErrRange)))
    ensures !IsDecimal(t) && Value(LeadingDigits(Magnitude(t))) <= MaxUint(32) ==>
              NumaNode(fs, devicePath) == Err(ParseError(NumError(t, ErrSyntax)))
  {
    TrimSpacePadded(a, t, b);
    NumaNodeCorrect(fs, devicePath);
  }

  /** NUMA contents: node 0 and "no node", which the kernel writes as -1. */
  lemma NumaNodeExamples(fs: Sysfs, devicePath: string)
    requires Join([devicePath, "numa_node"]) in fs.files
    ensures fs.files[Join([devicePath, "numa_node"])] == "0\n" ==> NumaNode(fs, devicePath) == Ok(0)
    ensures fs.files[Join([devicePath, "numa_node"])] == "-1\n" ==> NumaNode(fs, devicePath) == Ok(-1)
  {
    var c := fs.files[Join([devicePath, "numa_node"])];
    if c == "0\n" {
      SmallNumerals();
      assert c == "" + "0" + "\n";
      NumaNodePadded(fs, devicePath, "", "0", "\n");
    } else if c == "-1\n" {
      SmallNumerals();
      assert IsTrimmed("-1");
      assert c == "" + "-1" + "\n";
      NumaNodePadded(fs, devicePath, "", "-1", "\n");
    }
  }

  /** NUMA contents that are errors: a value beyond 32 bits, and text. */
  lemma NumaNodeErrors(fs: Sysfs, devicePath: string)
    requires Join([devicePath, "numa_node"]) in fs.files
    ensures fs.files[Join([devicePath, "numa_node"])] == "2147483648\n" ==>
              NumaNode(fs, devicePath) == Err(ParseError(NumError("2147483648", ErrRange)))
    ensures fs.files[Join([devicePath, "numa_node"])] == "none\n" ==>
              NumaNode(fs, devicePath) == Err(ParseError(NumError("none", ErrSyntax)))
  {
    var c := fs.files[Join([devicePath, "numa_node"])];
    if c == "2147483648\n" {
      Numeral2147483648();
      assert IsTrimmed("2147483648");
      assert c == "" + "2147483648" + "\n";
      NumaNodePadded(fs, devicePath, "", "2147483648", "\n");
    } else if c == "none\n" {
      assert IsTrimmed("none");
      assert c == "" + "none" + "\n";
      assert LeadingDigits(Magnitude("none")) == "";
      NumaNodePadded(fs, devicePath, "", "none", "\n");
    }
  }

  // ---------------------------------------------------------------------
  // PCI identity
  // ---------------------------------------------------------------------

  /** A "0x"-prefixed identifier between white space is passed on as its hexadecimal digits. */
  lemma NormalizeIdHex(a: string, digits: string, b: string)
    requires AllSpace(a) && AllSpace(b) && (digits == [] || !IsSpace(digits[|digits| - 1]))
    ensures NormalizeId(a + ("0x" + digits) + b) == digits
  {
    assert IsTrimmed("0x" + digits) by {
      assert ("0x" + digits)[0] == '0';
      if digits != "" {
        assert ("0x" + digits)[|"0x" + digits| - 1] == digits[|digits| - 1];
      }
    }
    TrimSpacePadded(a, "0x" + digits, b);
    TrimPrefixOnce("0x", digits);
  }

  /** An identifier without the exact "0x" prefix is only trimmed. */
  lemma NormalizeIdUnprefixed(a: string, id: string, b: string)
    requires AllSpace(a) && AllSpace(b) && IsTrimmed(id) && !("0x" <= id)
    ensures NormalizeId(a + id + b) == id
  {
    TrimSpacePadded(a, id, b);
  }

  /** The identifiers of the kernel's files: the vendor and device of an Intel network adapter. */
  lemma NormalizeIdExamples(raw: string)
    ensures raw == "0x8086\n" ==> NormalizeId(raw) == "8086"
    ensures raw == "  0x1521\n" ==> NormalizeId(raw) == "1521"
  {
    if raw == "0x8086\n" {
      assert IsTrimmed("8086");
      assert raw == "" + ("0x" + "8086") + "\n";
      NormalizeIdHex("", "8086", "\n");
    } else if raw == "  0x1521\n" {
      assert IsTrimmed("1521");
      assert AllSpace("  ");
      assert raw == "  " + ("0x" + "1521") + "\n";
      NormalizeIdHex("  ", "1521", "\n");
    }
  }

  /** Only a lower-case "0x" is removed, and only once; an empty identifier stays empty. */
  lemma NormalizeIdEdgeCases(raw: string)
    ensures raw == "0X8086" ==> NormalizeId(raw) == "0X8086"
    ensures raw == "0x0x8086" ==> NormalizeId(raw) == "0x8086"
    ensures raw == "" ==> NormalizeId(raw) == ""
  {
    if raw == "0X8086" {
      assert raw[1] == 'X';
      assert raw == "" + "0X8086" + "";
      NormalizeIdUnprefixed("", "0X8086", "");
    } else if raw == "0x0x8086" {
      assert raw == "" + ("0x" + "0x8086") + "";
      NormalizeIdHex("", "0x8086", "");
    } else if raw == "" {
      assert raw == "" + "" + "";
      NormalizeIdUnprefixed("", "", "");
    }
  }

  /**
   * ids fails with the read error, without consulting the database, when
   * `vendor` cannot be read; otherwise it returns the database's answer for
   * the normalised vendor and three empty identifiers.
   */
  lemma IdsCorrect<Entry>(fs: Sysfs, devicePath: string,
                          getDevice: (string, string, string, string) -> Result<Entry, Error>)
    ensures var p := Join([devicePath, "vendor"]);
            p !in fs.files ==> Ids(fs, devicePath, getDevice) == Err(PathError("open", p))
    ensures var p := Join([devicePath, "vendor"]);
            p in fs.files ==> Ids(fs, devicePath, getDevice) == getDevice(NormalizeId(fs.files[p]), "", "", "")
  {
    NormalizeIdEdgeCases("");
    var p := Join([devicePath, "vendor"]);
    if p in fs.files {
      match getDevice(NormalizeId(fs.files[p]), "", "", "")
      case Ok(_) =>
      case Err(_) =>
    }
  }

  /** ids reads the `vendor` file and nothing else: the `device` and subsystem files do not matter. */
  lemma IdsReadsOnlyVendor<Entry>(fs: Sysfs, fs': Sysfs, devicePath: string,
                                  getDevice: (string, string, string, string) -> Result<Entry, Error>)
    requires var p := Join([devicePath, "vendor"]);
             (p in fs.files <==> p in fs'.files) && (p in fs.files ==> fs.files[p] == fs'.files[p])
    ensures Ids(fs, devicePath, getDevice) == Ids(fs', devicePath, getDevice)
  {
  }

  // ---------------------------------------------------------------------
  // A whole interface
  // ---------------------------------------------------------------------

  /** An absolute link into a PCI device directory is the resolved path. */
  lemma Eth0Realpath(fs: Sysfs, bus: string, address: string)
    requires SysnetPath + "eth0" in fs.links
    requires fs.links[SysnetPath + "eth0"] == "/sys/devices/" + bus + "/" + address + "/net/eth0"
    ensures Realpath(fs, "eth0", SysnetPath) == "/sys/devices/" + bus + "/" + address + "/net/" + "eth0"
  {
    var t := "/sys/devices/" + bus + "/" + address + "/net/eth0";
    assert t[0] == "/sys/devices/"[0] == '/';
    assert IsName("eth0");
    RealpathUnderSysnet(fs, "eth0");
    assert "/net/eth0" == "/net/" + "eth0";
  }

  /** The link of `eth0` to a PCI device is not below the virtual device directory. */
  lemma Eth0IsPhysical(fs: Sysfs, bus: string, address: string)
    requires !("virtual" <= bus)
    requires SysnetPath + "eth0" in fs.links
    requires fs.links[SysnetPath + "eth0"] == "/sys/devices/" + bus + "/" + address + "/net/eth0"
    ensures !IsVirtual(fs, "eth0", SysnetPath) && !IsVirtualDevice(fs, "eth0", SysnetPath)
  {
    Eth0Realpath(fs, bus, address);
    VirtualPrefix();
    PciOutsideVirtual(bus, address, "eth0");
    VirtualDeviceIsVirtual(fs, "eth0", SysnetPath);
  }

  /**
   * An SR-IOV capable PCI network adapter `eth0` (for instance on bus
   * `pci0000:00` at address `0000:00:01.0`): it is physical, supports 64
   * virtual functions of which 4 are enabled, sits on NUMA node 0, and its
   * vendor is looked up as "8086".
   */
  lemma Eth0Scenario<Entry>(fs: Sysfs, bus: string, address: string, devicePath: string,
                            getDevice: (string, string, string, string) -> Result<Entry, Error>)
    requires !("virtual" <= bus)
    requires SysnetPath + "eth0" in fs.links
    requires fs.links[SysnetPath + "eth0"] == "/sys/devices/" + bus + "/" + address + "/net/eth0"
    requires SysnetPath + "eth0" + "/device/sriov_totalvfs" in fs.files
    requires fs.files[SysnetPath + "eth0" + "/device/sriov_totalvfs"] == "64\n"
    requires SysnetPath + "eth0" + "/device/sriov_numvfs" in fs.files
    requires fs.files[SysnetPath + "eth0" + "/device/sriov_numvfs"] == "4\n"
    requires Join([devicePath, "numa_node"]) in fs.files
    requires fs.files[Join([devicePath, "numa_node"])] == "0\n"
    requires Join([devicePath, "vendor"]) in fs.files
    requires fs.files[Join([devicePath, "vendor"])] == "0x8086\n"
    ensures !IsVirtual(fs, "eth0", SysnetPath)
    ensures SriovTotalVFs(fs, "eth0") == 64 && SriovNumVFs(fs, "eth0") == 4
    ensures NumaNode(fs, devicePath) == Ok(0)
    ensures Ids(fs, devicePath, getDevice) == getDevice("8086", "", "", "")
  {
    Eth0IsPhysical(fs, bus, address);
    assert IsName("eth0");
    SriovTotalVFsCorrect(fs, "eth0");
    SriovNumVFsCorrect(fs, "eth0");
    CounterValueExamples(fs.files[SysnetPath + "eth0" + "/device/sriov_totalvfs"]);
    CounterValueExamples(fs.files[SysnetPath + "eth0" + "/device/sriov_numvfs"]);
    NumaNodeExamples(fs, devicePath);
    IdsCorrect(fs, devicePath, getDevice);
    NormalizeIdExamples(fs.files[Join([devicePath, "vendor"])]);
  }
}
