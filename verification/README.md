# dranet sysfs discovery primitives, modelled in Dafny

dranet's network inventory learns about each network interface by reading
the Linux sysfs pseudo-filesystem. `pkg/inventory/sysfs.go` holds five small
primitives:

- `realpath` resolves the link `/sys/class/net/<if>`;
- `isVirtual` decides whether that link leads into `/sys/devices/virtual`;
- `sriovTotalVFs` and `sriovNumVFs` read the SR-IOV counters;
- `numaNode` reads the NUMA node of a device;
- `ids` normalises the PCI vendor identifier and looks it up in the PCI
  database.

They also use two path constants, `sysnetPath` and `sysdevPath`.

This project models all of them as pure Dafny functions over a filesystem
value, and proves what they compute. It also models the parts of Go's
standard library that the primitives depend on:

- `path/filepath` (`Join`, `Clean`, `Dir`, `IsAbs`, Unix semantics);
- `strings`/`bytes` (`TrimSpace`, `TrimPrefix`, `HasPrefix`);
- `strconv` (`Atoi`, `ParseInt`).

How much is proved about each library model differs:

- `Clean` is modelled as a stack over path components, following Go's
  documented rules. Lemmas state the rules one by one: `..` cancels a
  name (CleanParent), a doubled separator is dropped (CleanSkipEmpty), a
  trailing separator does not matter (CleanTrailingSep), and cleaning is
  idempotent.
- `TrimSpace`, `TrimPrefix`, `Split` and `LastSepEnd` have contracts that
  characterise their results.
- Only the parsers are related to a separate reference definition of
  numerals: `IsDecimal`, `DecimalValue` and `InRange`.

Files:

- `results.dfy`: `Result` and `Option`.
- `text.dfy` (module `Text`): white-space trimming and prefix removal.
- `paths.dfy` (module `Paths`): lexical path handling. A path is split into
  components at `/`. `Clean` resolves the components against a stack. This
  drops empty components and `.`, applies `..`, and never climbs above the
  root.
- `decimal.dfy` (module `Decimal`): `strconv.ParseUint`, `ParseInt` and
  `Atoi`. It includes the fast path of `Atoi`, the overflow cut-offs and
  the error kinds.
- `sysfs.dfy` (module `Inventory`): the constants, the filesystem value, the
  five primitives, and the properties proved about them.

The filesystem is `Sysfs(files, links)`:

- `files` maps a path to what `os.ReadFile` returns for it. The kernel
  follows links while reading, so a file reached through a link is listed
  under the path as written.
- `links` maps the path of a symbolic link to what `os.Readlink` returns.
- A path missing from either map cannot be read.

The PCI database lookup `pcidb.GetDevice` is a function-valued parameter of
`Ids`.

What the code does, which the model follows:

- `isVirtual` compares raw characters, not path components. As a result,
  `/sys/devices/virtualfoo/...` counts as virtual. A component-wise
  classification is modelled beside it as `IsVirtualDevice` (see
  Findings).
- The SR-IOV counters return 0 both for a missing file and for contents
  that do not parse. A negative numeral is returned as it is; nothing makes
  the counts non-negative.
- An unreadable interface link is not an error. The link's directory
  `/sys/class/net` is used as the resolved path, and the interface is then
  classified as not virtual.
- `ids` reads only `vendor`. The reads of `device`, `subsystem_vendor` and
  `subsystem_device` are commented out in the code. The lookup therefore
  always gets three empty identifiers, so a device identifier such as
  `0x1521` never reaches the database.

## Model

| member | source | states |
|---|---|---|
| Inventory.ReadFile | pkg/inventory/sysfs.go:99 | os.ReadFile: the contents of a listed path, and an `open` path error naming the path otherwise |
| Inventory.Readlink | pkg/inventory/sysfs.go:44 | os.Readlink: the target of a listed link, and a `readlink` path error naming the path otherwise |
| Inventory.Realpath | pkg/inventory/sysfs.go:42-56 | realpath; its contract is in RealpathAbsoluteTarget, RealpathIsAbsolute and RealpathUnderSysnet |
| Inventory.RealpathAbsoluteTarget | pkg/inventory/sysfs.go:49-50 | for every directory and name, an absolute link target is returned unchanged |
| Inventory.IsVirtual | pkg/inventory/sysfs.go:60-64 | isVirtual, the raw prefix test; its behaviour is stated by VirtualInterface, PciInterface, UnreadableLinkNotVirtual and VirtualPrefixCollision |
| Inventory.UnderVirtual | pkg/inventory/sysfs.go:60-64 | the component-wise reference for isVirtual; characterised by UnderVirtualComponentwise |
| Inventory.IsVirtualDevice | pkg/inventory/sysfs.go:60-64 | the component-wise classification of an interface; related to IsVirtual by VirtualDeviceIsVirtual and ClassificationsAgree |
| Inventory.SriovCounter | pkg/inventory/sysfs.go:66-96 | the common body of both counters: the result is always a signed 64-bit value; the full contract is SriovCounterCorrect |
| Inventory.SriovTotalVFs | pkg/inventory/sysfs.go:66-80 | sriovTotalVFs; its contract is SriovTotalVFsCorrect |
| Inventory.SriovNumVFs | pkg/inventory/sysfs.go:82-96 | sriovNumVFs; its contract is SriovNumVFsCorrect |
| Inventory.CounterValue | pkg/inventory/sysfs.go:73-79 | the reference meaning of counter contents: a trimmed numeral within 64 signed bits, else 0; related to the code by SriovCounterCorrect |
| Inventory.NumaNode | pkg/inventory/sysfs.go:98-108 | numaNode: a successful result is always a signed 32-bit value; the full contract is NumaNodeCorrect |
| Inventory.NormalizeId | pkg/inventory/sysfs.go:135 | the identifier normalisation; its contract is NormalizeIdHex and NormalizeIdUnprefixed |
| Inventory.Ids | pkg/inventory/sysfs.go:110-145 | ids; its contract is IdsCorrect and IdsReadsOnlyVendor |
| Inventory.SysClassNet | pkg/inventory/sysfs.go:30-32 | `sysnetPath` is the clean absolute path with components sys/class/net, followed by a separator |
| Inventory.SysDevices | pkg/inventory/sysfs.go:39 | `sysdevPath` is the clean absolute path with components sys/devices |
| Inventory.VirtualPrefix | pkg/inventory/sysfs.go:62 | the prefix isVirtual builds is exactly `/sys/devices/virtual` |
| Inventory.JoinSysnet | pkg/inventory/sysfs.go:67 | joining sysnetPath with a path equals cleaning their concatenation |
| Inventory.InterfaceLink | pkg/inventory/sysfs.go:43 | for a plain interface name, the link path is `/sys/class/net/<name>` and its directory is `/sys/class/net` |
| Inventory.RealpathIsAbsolute | pkg/inventory/sysfs.go:42-56 | below an absolute directory the resolved path is absolute; an absolute target is returned unchanged; otherwise the result is a clean path |
| Inventory.RealpathUnderSysnet | pkg/inventory/sysfs.go:42-56 | for `/sys/class/net/<name>`: an absolute target is returned unchanged; a relative target is resolved from `/sys/class/net/`; an unreadable link gives `/sys/class/net` |
| Inventory.ClassNetToDevices | pkg/inventory/sysfs.go:53 | a relative target `../../devices/<r>` resolved from the interface directory equals `/sys/devices/<r>` cleaned |
| Inventory.VirtualLinkPath | pkg/inventory/sysfs.go:53 | the kernel's relative link of a software interface resolves to `/sys/devices/virtual/net/<name>` |
| Inventory.PciLinkPath | pkg/inventory/sysfs.go:53 | the relative link of a hardware interface resolves to `/sys/devices/<bus>/<address>/net/<name>` |
| Inventory.VirtualInterface | pkg/inventory/sysfs.go:58-64 | a software interface resolves to `/sys/devices/virtual/net/<name>` and is classified virtual |
| Inventory.PciInterface | pkg/inventory/sysfs.go:60-64 | a hardware interface on a bus whose name does not start with "virtual" resolves to its device directory and is not classified virtual |
| Inventory.OutsideVirtual | pkg/inventory/sysfs.go:63 | a path below `/sys/devices/` whose first component does not start with "virtual" lacks the raw prefix `/sys/devices/virtual` |
| Inventory.PciOutsideVirtual | pkg/inventory/sysfs.go:63 | a PCI device path on such a bus lacks the raw prefix |
| Inventory.UnreadableLinkNotVirtual | pkg/inventory/sysfs.go:44-63 | an interface whose link cannot be read is not virtual under either classification |
| Inventory.UnderVirtualComponentwise | pkg/inventory/sysfs.go:60-64 | on clean absolute paths, the component-wise check holds exactly when the first three components are sys, devices, virtual |
| Inventory.VirtualDeviceIsVirtual | pkg/inventory/sysfs.go:60-64 | whatever the component-wise check calls virtual, isVirtual calls virtual too |
| Inventory.VirtualPrefixCollision | pkg/inventory/sysfs.go:60-64 | a link to `/sys/devices/virtualfoo/net/<name>` is virtual for isVirtual but not for the component-wise check |
| Inventory.ClassificationsAgree | pkg/inventory/sysfs.go:60-64 | on the kernel's software and hardware links the two classifications agree |
| Inventory.InterfaceDir | pkg/inventory/sysfs.go:67 | the directory `/sys/class/net/<name>` of a plain name is the clean path with components sys/class/net/<name> |
| Inventory.SriovCounterPath | pkg/inventory/sysfs.go:67 | the leading `/` of the `/device/<file>` element adds nothing: the joined path is `/sys/class/net/<name>/device/<file>` |
| Inventory.SriovCounterCorrect | pkg/inventory/sysfs.go:66-80 | a counter is the meaning of its file (a decimal numeral within 64 bits), or 0 when the file is missing or does not parse |
| Inventory.SriovTotalVFsCorrect | pkg/inventory/sysfs.go:66-80 | sriovTotalVFs is 0 without that file and the file's numeric meaning otherwise |
| Inventory.SriovNumVFsCorrect | pkg/inventory/sysfs.go:82-96 | sriovNumVFs is 0 without that file and the file's numeric meaning otherwise |
| Inventory.CounterValuePadded | pkg/inventory/sysfs.go:73-79 | a numeral within 64 bits, padded with white space, means its value |
| Inventory.CounterValueExamples | pkg/inventory/sysfs.go:73-79 | counter files "64\n" and "4\n" mean 64 and 4 |
| Inventory.CounterValueNegative | pkg/inventory/sysfs.go:73-79 | a counter file "-1\n" means -1: a negative count is passed through |
| Inventory.CounterValueFallback | pkg/inventory/sysfs.go:74-78 | empty or non-numeric counter contents mean 0 |
| Inventory.NumaNodeCorrect | pkg/inventory/sysfs.go:98-108 | a missing `numa_node` gives the open error; otherwise success exactly when the trimmed contents are a numeral within 32 signed bits, with that value; a failure is a parse error naming the trimmed contents: a range error for a numeral that does not fit, and for text whose leading digits exceed 32 unsigned bits; a syntax error for any other text |
| Inventory.NumaNodePadded | pkg/inventory/sysfs.go:103-107 | a padded numeral gives its value when it fits 32 bits and a range error when it does not; padded text whose leading digits fit 32 unsigned bits gives a syntax error |
| Inventory.NumaNodeExamples | pkg/inventory/sysfs.go:98-108 | "0\n" gives node 0 and "-1\n" gives -1 |
| Inventory.NumaNodeErrors | pkg/inventory/sysfs.go:103-106 | "2147483648\n" gives a range error and "none\n" a syntax error, never a default |
| Inventory.NormalizeIdHex | pkg/inventory/sysfs.go:135 | a `0x`-prefixed identifier between white space is passed on as everything after the `0x`, white space right after the `0x` included |
| Inventory.NormalizeIdUnprefixed | pkg/inventory/sysfs.go:135 | an identifier without the exact `0x` prefix is only trimmed |
| Inventory.NormalizeIdExamples | pkg/inventory/sysfs.go:133-135 | "0x8086\n" becomes "8086" and "  0x1521\n" becomes "1521" |
| Inventory.NormalizeIdEdgeCases | pkg/inventory/sysfs.go:135 | "0X8086" is left alone, only one of two `0x` is removed, and "" stays "" |
| Inventory.IdsCorrect | pkg/inventory/sysfs.go:110-145 | an unreadable `vendor` gives its open error without a lookup; otherwise the result is the lookup of the normalised vendor and three empty identifiers |
| Inventory.IdsReadsOnlyVendor | pkg/inventory/sysfs.go:112-139 | two filesystems that agree on `vendor` give the same ids result |
| Inventory.Eth0Realpath | pkg/inventory/sysfs.go:49-50 | an absolute link of `eth0` into a PCI device directory is its resolved path |
| Inventory.Eth0IsPhysical | pkg/inventory/sysfs.go:60-64 | that `eth0` is not virtual under either classification |
| Inventory.Eth0Scenario | pkg/inventory/sysfs.go:42-145 | an SR-IOV adapter `eth0` is not virtual, reports (64, 4) VFs and NUMA node 0, and is looked up with vendor "8086" |
| Inventory.CleanTwoNames | pkg/inventory/sysfs.go:67 | a clean absolute path followed by two names is already clean |
| Text.TrimSpace | pkg/inventory/sysfs.go:73 | the result is trimmed; it is the middle of the input; what was cut off on either side is white space |
| Text.TrimSpacePadded | pkg/inventory/sysfs.go:103 | trimming white-space padding around a trimmed string gives the string back |
| Text.TrimSpaceIdempotent | pkg/inventory/sysfs.go:89 | trimming twice is trimming once |
| Text.TrimPrefix | pkg/inventory/sysfs.go:135 | with the prefix present, prefix + result is the input; without it, the input is unchanged |
| Text.TrimPrefixOnce | pkg/inventory/sysfs.go:135 | only one copy of the prefix is removed |
| Paths.Split | pkg/inventory/sysfs.go:43 | splitting at `/` gives separator-free components that join back to the path |
| Paths.Clean | pkg/inventory/sysfs.go:53 | Clean never returns the empty path |
| Paths.Join | pkg/inventory/sysfs.go:43 | Join is empty exactly when every element is empty |
| Paths.LastSepEnd | pkg/inventory/sysfs.go:53 | the position after the last separator: no separator follows it |
| Paths.SplitJoinSep | pkg/inventory/sysfs.go:43 | splitting separator-joined components gives them back |
| Paths.JoinSepAppend | pkg/inventory/sysfs.go:43 | joining two non-empty lists is joining each and putting a separator between |
| Paths.SplitNameFirst | pkg/inventory/sysfs.go:43 | a separator-free prefix glues onto the first component |
| Paths.SplitAppend | pkg/inventory/sysfs.go:43 | splitting `a/b` is splitting a, then b |
| Paths.ResolveAppend | pkg/inventory/sysfs.go:53 | resolving two lists of components is resolving one after the other |
| Paths.StepClean | pkg/inventory/sysfs.go:53 | one resolution step keeps the stack clean |
| Paths.ResolveClean | pkg/inventory/sysfs.go:53 | resolution keeps the stack clean |
| Paths.ResolveKeepsClean | pkg/inventory/sysfs.go:53 | resolving clean components onto a stack appends them |
| Paths.AbsPathSplit | pkg/inventory/sysfs.go:53 | an absolute path splits into an empty component followed by its components |
| Paths.CleanIsClean | pkg/inventory/sysfs.go:53 | Clean's result is clean and absolute exactly when the input is |
| Paths.CleanKeepsClean | pkg/inventory/sysfs.go:53 | Clean leaves a clean path unchanged |
| Paths.CleanIdempotent | pkg/inventory/sysfs.go:53 | cleaning twice is cleaning once |
| Paths.ResolveAbsPath | pkg/inventory/sysfs.go:53 | resolving the components of a clean absolute path gives them back |
| Paths.CleanAbsAppend | pkg/inventory/sysfs.go:53 | a relative path below a clean directory is resolved onto the directory's components |
| Paths.JoinAbsRelative | pkg/inventory/sysfs.go:53 | Join of a clean directory and a relative path is that resolution |
| Paths.DirIsClean | pkg/inventory/sysfs.go:53 | Dir's result is clean and absolute exactly when the input is |
| Paths.DirOfChild | pkg/inventory/sysfs.go:53 | the directory of `d/n` is `d/` cleaned |
| Paths.CleanTrailingSep | pkg/inventory/sysfs.go:53 | a trailing separator does not change the cleaned path |
| Paths.AbsPathChild | pkg/inventory/sysfs.go:53 | adding a component adds `/` and its name |
| Paths.SplitCons | pkg/inventory/sysfs.go:43 | splitting `w/rest` with w separator-free is w, then the split of rest |
| Paths.AbsPathIsClean | pkg/inventory/sysfs.go:53 | the absolute path of clean components is clean and Clean fixes it |
| Paths.CleanParent | pkg/inventory/sysfs.go:53 | `..` after a component removes it |
| Paths.CleanSkipEmpty | pkg/inventory/sysfs.go:67 | a doubled separator is dropped by Clean |
| Paths.AbsPathAppend | pkg/inventory/sysfs.go:53 | appending components appends their separator-joined text |
| Paths.CleanNames | pkg/inventory/sysfs.go:53 | plain names below a clean absolute path are already clean |
| Paths.IsAbs | pkg/inventory/sysfs.go:49 | filepath.IsAbs on Unix: the path starts with `/`; kept by Clean and Dir (CleanIsClean, DirIsClean) |
| Paths.Dir | pkg/inventory/sysfs.go:53 | filepath.Dir; its contract is DirIsClean and DirOfChild |
| Decimal.ScanUint | pkg/inventory/sysfs.go:103 | the digit loop of ParseUint; its contract is ScanUintCorrect |
| Decimal.ParseUint | pkg/inventory/sysfs.go:103 | strconv.ParseUint in base 10; its contract is ParseUintCorrect |
| Decimal.ParseInt | pkg/inventory/sysfs.go:103 | strconv.ParseInt in base 10; its contract is ParseIntCorrect |
| Decimal.AtoiDigits | pkg/inventory/sysfs.go:74 | the fast-path digit loop of Atoi; its contract is AtoiDigitsCorrect |
| Decimal.Atoi | pkg/inventory/sysfs.go:74 | strconv.Atoi; its contract is AtoiIsParseInt and AtoiCorrect |
| Decimal.LeadingDigits | pkg/inventory/sysfs.go:103 | the longest all-digit prefix of a string |
| Decimal.ValueAppend | pkg/inventory/sysfs.go:103 | appending a digit multiplies the value by ten and adds the digit |
| Decimal.ValueFromValue | pkg/inventory/sysfs.go:103 | accumulating from left to right computes the value |
| Decimal.ValueIsValueFrom | pkg/inventory/sysfs.go:103 | accumulation from zero is the value |
| Decimal.ValueFromGrows | pkg/inventory/sysfs.go:103 | accumulation never decreases |
| Decimal.ValueBound | pkg/inventory/sysfs.go:103 | an n-digit numeral is below 10^n |
| Decimal.Pow10Monotone | pkg/inventory/sysfs.go:103 | powers of ten grow with the exponent |
| Decimal.ScanUintCorrect | pkg/inventory/sysfs.go:103 | the digit scan returns the value when it fits, a range error when it overflows, and a syntax error at a non-digit |
| Decimal.ParseUintCorrect | pkg/inventory/sysfs.go:103 | ParseUint: syntax error on empty input; the value of a digit string that fits; a range error when it does not |
| Decimal.ParseIntCorrect | pkg/inventory/sysfs.go:103 | ParseInt succeeds exactly on in-range decimal numerals, with their value; errors carry the input; an out-of-range numeral is a range error; empty input is a syntax error; other text is a range error when its leading digits overflow the unsigned range of the bit size and a syntax error otherwise |
| Decimal.AtoiDigitsCorrect | pkg/inventory/sysfs.go:74 | the fast-path digit loop gives the value of an all-digit string and fails otherwise |
| Decimal.ShortValueFits | pkg/inventory/sysfs.go:74 | at most 18 digits stay below 10^18 |
| Decimal.AtoiIsParseInt | pkg/inventory/sysfs.go:74 | Atoi, fast path included, equals ParseInt in base 10 with 64 bits |
| Decimal.AtoiCorrect | pkg/inventory/sysfs.go:74 | Atoi succeeds exactly on decimal numerals within 64 signed bits, with their value |

## Left out

- Real I/O: `os.Readlink` and `os.ReadFile` are lookups in a filesystem value. Permission errors, partial reads and concurrent changes to sysfs are not modelled. Following links inside a path during a read is folded into `files`.
- Logging: the `klog` calls at pkg/inventory/sysfs.go lines 46, 70, 76, 86 and 92 only write diagnostics.
- `pcidb.GetDevice`: a foreign library. It is the `getDevice` parameter of `Ids`, and its answers are not constrained.
- The commented-out reads of `device`, `subsystem_vendor` and `subsystem_device` are not live code and are not modelled as active.
- Text.TrimSpace: recognises ASCII white space only. Unicode white space is kept, whereas Go's `TrimSpace` would remove it.
- Decimal.Atoi: assumes a 64-bit `int`. Only bit sizes 32 and 64 exist, the only ones the core uses.
- Error values: the `Func` field of `strconv.NumError` is not kept, and neither is the 0 returned beside an error. `*fs.PathError` becomes `PathError(op, path)` without the underlying errno.
- Paths: Unix only. There are no Windows volume names, and paths are compared as raw strings, as Go does.
- RealpathIsAbsolute: for a relative target it states that the result is clean and absolute, not which path that is. The exact path is stated for `/sys/class/net` links by RealpathUnderSysnet.
- tests/fake_iface_driver/fake_iface.c is not part of this model. It is a kernel module that creates test interfaces and contains no inventory logic.

## Findings

| source | as written | input that shows it | evidently intended | confidence | as-written member | corrected member |
|---|---|---|---|---|---|---|
| pkg/inventory/sysfs.go:60-64 | isVirtual tests a raw string prefix `/sys/devices/virtual` | an interface whose link is `/sys/devices/virtualfoo/net/x` is classified virtual | a path is virtual when its components start with sys, devices, virtual | low, not executed (the kernel creates no such directory today) | Inventory.VirtualPrefixCollision | Inventory.UnderVirtualComponentwise |
