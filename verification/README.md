# PEP 425 compatibility tags in Dafny

This project models the compatibility-tag engine of the `pep425` package.
A *tag* is an `(interpreter, abi, platform)` triple such as
`cp37-cp37m-macosx_10_9_x86_64`. An installer uses tags to decide which
wheel it may install. The engine does four things:

- it builds and prints tags;
- it parses tag strings, including compressed ones like `py2.py3-none-any`
  ("Compressed Tag Sets" in PEP 425), and the tag part of wheel file names
  (the "File name convention" of PEP 427);
- it lists the tags the running interpreter supports, most preferred first
  (`sys_tags`);
- to do that, it lists the platforms of the host: macOS releases and their
  binary formats, the manylinux tiers of PEP 513 and PEP 571, or the
  normalised host platform.

Everything the Python code asks the host is a parameter here. That covers
`platform`, `sys`, `sysconfig`, `distutils`, the glibc probe and the
bitness of the interpreter. The environment record is `SysTags.Environment`.

Modules:

- `Wrappers`: `Option` and `Result`. They stand for the exceptions the
  Python code raises.
- `Strings`: the Python string operations the engine uses. These are
  ASCII `lower`, `split` and `join` on one character, `replace`, `rindex`,
  `str(int)` and `_normalize_string`.
- `Tags`: the `Tag` value, `parse_tag` and `parse_wheel_tag`.
- `Generators`: the ordered generators `_cpython_tags`, `_pypy_tags`,
  `_generic_tags`, `_py_interpreter_range` and `_independent_tags`.
- `MacOS`: `architecture`, `binary_formats` and `platforms` of
  `pep425/_mac.py`. `pep425.py` repeats the same code as `_mac_arch`,
  `_mac_binary_formats` and `_mac_platforms`.
- `Linux`: `_linux_platforms`, with the manylinux probe as a function
  parameter. It also models `_is_manylinux_compatible` and the glibc
  comparison its default probe ends in.
- `SysTags`: `_interpreter_name`, `_cpython_abi`, `_generic_abi`,
  `_pypy_interpreter`, `_generic_interpreter`, `_generic_platforms` and
  `sys_tags`.

Where the code and its documentation differ, the model follows the code:

- `_cpython_tags` does not append the version-independent tail. `sys_tags`
  appends it after every family block.
- Tags may repeat. With ABI `none`, `_pypy_tags` emits the same block twice
  (`Generators.PyPyTagsRepeat`). An interpreter tag such as `py33` also
  collides with the `py*` tail (`Generators.IndependentTagsRepeat`).
- The last tag of `sys_tags` is `py{major}0-none-any` only when the minor
  version is at least 1. With minor version 0 it is `py{major}-none-any`.
- A SOABI with fewer than two dashes makes `_cpython_abi` fail. In Python
  this is the `ValueError` of tuple unpacking. Here it is `MalformedSoabi`.

## Model

| member | source | states |
|---|---|---|
| Strings.Lower | pep425.py:34 | lower-casing keeps the length, changes each character to its lower-case form, and leaves no upper-case letter |
| Strings.LowerOfLower | pep425.py:34 | lower-casing a string that is already lower case changes nothing, so lower-casing is idempotent |
| Strings.Split | pep425.py:69-72 | `split` on one character gives one more piece than there are separators, and no piece contains the separator |
| Strings.JoinSplit | pep425.py:43 | joining the pieces of a split with the same separator gives back the original string |
| Strings.SplitJoin | pep425.py:69 | splitting a join of separator-free pieces gives back exactly those pieces |
| Strings.RIndex | pep425.py:83 | `rindex(c, 0, hi)` finds a position holding `c` with no `c` after it before `hi`; it fails exactly when `c` does not occur before `hi` |
| Strings.NatToString | pep425.py:95 | `str(n)` is a non-empty string of decimal digits, one digit long exactly when `n < 10` |
| Strings.NatToStringValue | pep425.py:95 | the digits of `str(n)` denote `n`, and there is no leading zero |
| Strings.NatToStringOfDigits | pep425.py:95 | every digit string without a leading zero is `str` of the number it denotes, so rendering and reading digits are inverse |
| Strings.NatToStringInjective | pep425.py:95 | different numbers print differently |
| Strings.NormalizeString | pep425.py:88-90 | normalising keeps the length, leaves no `.` or `-`, turns each `.` and `-` into `_`, and keeps every other character |
| Strings.NormalizeIdempotent | pep425.py:88-90 | normalising a normalised string changes nothing |
| Strings.ReplaceAll | pep425.py:309 | replacing a pattern by itself changes nothing, and a replacement as long as the pattern keeps the length |
| Strings.ContainsOccursAt | pep425.py:309 | the left-to-right scan for `pat in s` succeeds exactly when `pat` occurs at some position of `s` |
| Strings.ReplaceAllNoOccurrence | pep425.py:309 | `replace` leaves a string in which the pattern occurs nowhere unchanged |
| Strings.ReplaceAllSkip | pep425.py:309 | where the pattern does not start, `replace` keeps the first character and carries on with the rest |
| Strings.NoOccurrenceWithout | pep425.py:309 | a string lacking one of the pattern's characters does not contain the pattern |
| Tags.MakeTag | pep425.py:28-34 | a constructed tag has lower-case fields that agree with the arguments up to case |
| Tags.MakeTagEquality | pep425.py:36-37 | two constructed tags are equal exactly when their three arguments agree up to case |
| Tags.MakeTagOfWellFormed | pep425.py:28-34 | constructing a tag from the fields of a lower-case tag gives back that tag |
| Tags.ToString | pep425.py:42-43 | `str(tag)` is the interpreter, the ABI and the platform joined by `-` |
| Tags.ToStringFields | pep425.py:42-43 | splitting `str(tag)` on `-` gives the three fields, when no field holds a dash |
| Tags.ParseTag | pep425.py:61-74 | parsing succeeds exactly when the text has two dashes; on failure the error is a malformed tag; every parsed tag is lower case and free of dashes and dots |
| Tags.CrossProduct | pep425.py:70-73 | every tag of the cross product is lower case, and the product is empty exactly when one list of alternatives is empty |
| Tags.CrossProductPlain | pep425.py:70-73 | a cross product of dash-free and dot-free alternatives holds only lower-case tags free of dashes and dots |
| Tags.ParseCompressedTag | pep425.py:61-74 | a compressed tag string built from lists of alternatives parses to exactly the cross product of those lists |
| Tags.ParseTagRoundTrip | pep425.py:61-74 | the string form of a lower-case tag without dashes or dots parses to that tag alone |
| Tags.ParsedTagsRoundTrip | pep425.py:61-74 | every tag a parse yields prints to text that parses back to that tag alone |
| Tags.ParseTwoInterpreters | pep425.py:69-73 | `i1.i2-a-p` parses to the two tags `i1-a-p` and `i2-a-p` |
| Tags.ParseTagExample | pep425.py:61-74 | `py2.py3-none-any` parses to `{py2-none-any, py3-none-any}` |
| Tags.StripExtension | pep425.py:79 | the stripped name is a prefix of the path; what is cut off starts with the last `.` and holds no `/`; something is cut off only when a character other than `.` precedes that `.` in the last path component |
| Tags.StripExtensionDotfile | pep425.py:79 | a name like `.bashrc`, whose only `.` opens it, keeps its whole name |
| Tags.StripExtensionAt | pep425.py:79 | the extension starts at the last `.` when a character other than `.` comes before it in the same path component |
| Tags.StripExtensionOfWheel | pep425.py:79 | for `<prefix>-<tag text>.<ext>`, stripping removes exactly `.<ext>` |
| Tags.RIndexN | pep425.py:80-84 | the search loop stops at a position with exactly `parts` dashes from it up to the end, the first of them at that position; it fails exactly when there are fewer than `parts` dashes |
| Tags.RIndexNIs | pep425.py:80-84 | the search loop stops exactly at a dash that has the right number of dashes from it to the end |
| Tags.ParseWheelTag | pep425.py:77-85 | parsing a wheel name fails exactly when the stripped name has fewer than three dashes |
| Tags.ParseWheelTagAt | pep425.py:81-85 | the wheel tag is the parse of the text after the third-from-last dash of the stripped name |
| Tags.WheelTagIgnoresPrefix | pep425.py:77-85 | for any directories, project name and version before `-<tag text>.<ext>`, the wheel tag is the parse of the tag text |
| Tags.WheelTagOfTag | pep425.py:77-85 | a wheel whose tag text is the string form of one tag declares exactly that tag |
| Tags.ParseWheelTagExample | pep425.py:77-85 | `gidgethub-3.0.0-py3-none-any.whl` declares `{py3-none-any}` |
| Generators.RangeDown | pep425.py:124 | `range(start, stop, -1)` has `start - stop` elements (none when `start <= stop`), and element `i` is `start - i` |
| Generators.CpTagDigits | pep425.py:93-95 | `cp` is followed by digits only; with a one-digit minor version they denote `10 * major + minor` |
| Generators.CpTagInjective | pep425.py:93-95 | with one-digit minor versions, `cp{M}{m}` determines the release |
| Generators.PyInterpreterRange | pep425.py:165-175 | `m + 2` version tags: `py{M}{m}`, `py{M}`, then `py{M}{k}` for `k` from `m - 1` down to 0 |
| Generators.Block | pep425.py:116 | one tag per platform, in platform order, with the interpreter and ABI fixed |
| Generators.Product | pep425.py:186-188 | the nested loop yields one tag per pair of interpreter and platform |
| Generators.ProductAt | pep425.py:186-188 | position `i * n + j` of the nested loop holds interpreter `i` with platform `j`, so platforms vary fastest |
| Generators.IndependentTags | pep425.py:178-191 | the tail has `(m + 2) * n + 1 + (m + 2)` tags for `n` platforms |
| Generators.IndependentTagsAt | pep425.py:186-188 | the first part of the tail pairs `py*` version `i` with platform `j` at `i * n + j` |
| Generators.IndependentTagsAnyAt | pep425.py:189-191 | after that part comes `{interpreter}-none-any`, then `py*` version `i` with platform `any` |
| Generators.IndependentTagsLast | pep425.py:172-191 | the last tag of the tail is `py{M}0-none-any` when `m >= 1` and `py{M}-none-any` when `m == 0` |
| Generators.StableAbiInterpreters | pep425.py:124-127 | the stable-ABI interpreters are `cp{M}{k}` for `k` from `m - 1` down to 2, so there are `m - 2` of them, or none when `m < 3` |
| Generators.CPythonTagsLength | pep425.py:115-130 | the CPython block has `n * (3 + max(0, m - 2))` tags for `n` platforms |
| Generators.CPythonTagsAt | pep425.py:116-122 | the exact ABI, then `abi3`, then `none`, each over all platforms in order |
| Generators.CPythonTagsStableAt | pep425.py:124-130 | after those three blocks come `cp{M}{m-1-t}-abi3` tags with every platform, the newer releases first |
| Generators.CPythonTagsOlderAt | pep425.py:124-130 | position `(3 + t) * n + j` of the CPython block is stable-ABI interpreter `t` with platform `j` and ABI `abi3` |
| Generators.PyPyTags | pep425.py:150-154 | the `{interpreter}-{abi}` block over all platforms, then the `{interpreter}-none` block |
| Generators.GenericTags | pep425.py:157-162 | one block when the ABI is `none` and two blocks otherwise |
| Generators.GenericTagsVersusPyPy | pep425.py:150-162 | the generic block equals the PyPy block unless the ABI is `none`; in that case it is the PyPy block's first half |
| Generators.PyPyTagsRepeat | pep425.py:150-154 | with ABI `none` the PyPy block repeats its first tag, so tags are not unique |
| Generators.IndependentTagsRepeat | pep425.py:186-191 | an interpreter tag `py{M}{m}` makes two neighbouring tail tags equal |
| MacOS.Architecture | pep425/_mac.py:7-15 | a 64-bit interpreter keeps the architecture; a 32-bit one reports `ppc` exactly for PowerPC architectures and `i386` for all others |
| MacOS.ArchitectureIdempotent | pep425/_mac.py:7-15 | collapsing an already collapsed architecture changes nothing |
| MacOS.BinaryFormats | pep425/_mac.py:18-44 | a non-empty list of formats starts with the architecture and ends with `universal` |
| MacOS.BinaryFormatsTable | pep425/_mac.py:20-44 | x86_64 and i386 have their four formats from 10.4 on and none before; ppc64 has its formats only on 10.4 and 10.5; ppc only up to 10.6; any other architecture is itself or universal |
| MacOS.PlatformName | pep425/_mac.py:60 | every name starts with `macosx_{major}_` and ends with `_{format}` |
| MacOS.PlatformNameInjective | pep425/_mac.py:60 | a name determines its major release, minor release and binary format: different triples never share a name |
| MacOS.FormatBlock | pep425/_mac.py:58-61 | one `macosx_{M}_{m}_{format}` name per binary format, in format order |
| MacOS.PlatformsKeepMajor | pep425.py:234-253 | every platform keeps the major release of the requested version |
| MacOS.FormatBlockMembers | pep425/_mac.py:58-61 | a name is in a release's block exactly when it names that release with one of its formats |
| MacOS.PlatformsBlocks | pep425/_mac.py:55-62 | a name is listed exactly when it is in the block of some minor release up to the requested one |
| MacOS.PlatformsMembers | pep425/_mac.py:55-62 | a name is listed exactly when it names some minor release up to the requested one, with one of that release's formats |
| MacOS.PlatformsSuffix | pep425.py:244-253 | for the same major release and architecture, the platforms of an older minor release are a suffix of those of a newer one, so newer releases come first |
| MacOS.PlatformsFirst | pep425/_mac.py:55-62 | when the requested release has formats, the first platform is `macosx_{M}_{m}_{arch}` |
| MacOS.PlatformsX86Count | pep425/_mac.py:55-62 | x86_64 on 10.m lists `5 * (m - 3)` platforms from 10.4 on and none before, so 10.17 lists 70 and 10.0 none |
| MacOS.PlatformsAsWrittenIgnoresArch | pep425/_mac.py:57 | as written, whenever the requested architecture differs from the host's and the release supports both, the list differs from the one for the requested architecture |
| MacOS.PlatformsAsWritten | pep425/_mac.py:47-62 | as written, the first platform of a release with formats for the host architecture is `macosx_{M}_{m}_{host arch}`, whatever `arch` is |
| MacOS.PlatformsAsWrittenExample | pep425/_mac.py:55-62 | asking for x86_64 on 10.5 on a host that reports i386 lists `macosx_10_5_i386` first, not `macosx_10_5_x86_64` |
| Linux.HostPlatform | pep425.py:300-302 | the host platform is normalised, so it has no `.` or `-`; a 32-bit interpreter that sees `linux_x86_64` reports `linux_i686`, and nothing else is changed |
| Linux.AcceptedTiers | pep425.py:306-312 | the chosen tiers are a suffix of the tier list that starts with an accepted tier; every tier before it was refused |
| Linux.AcceptedTiersStopsAtFirst | pep425.py:307-310 | two probes that agree up to a tier both accept choose the same tiers: later tiers are not asked about |
| Linux.ManylinuxName | pep425.py:309 | a platform without an `l`, or renaming to `linux` itself, leaves the platform unchanged |
| Linux.LinuxPlatforms | pep425.py:298-316 | one to three platforms, always ending with the host platform |
| Linux.LinuxPlatformsTiers | pep425.py:305-316 | accepting manylinux2010 gives manylinux2010, manylinux1 and the host; accepting only manylinux1 gives manylinux1 and the host; accepting neither gives the host alone |
| Linux.LinuxPlatformsIgnoresManylinux1 | pep425.py:307-314 | once manylinux2010 is accepted, the probe's answer for manylinux1 does not change the result |
| Linux.ManylinuxNameOfLinux | pep425.py:309 | `replace("linux", name)` on `linux<rest>` gives `name<rest>` whenever `linux` does not occur again in the rest (so `linux_armv7l` and `linux_ppc64le` are covered) |
| Linux.ManylinuxNameOfLinuxWithout | pep425.py:309 | the same renaming when the rest lacks one of the letters of `linux` |
| Linux.ManylinuxNameUnchanged | pep425.py:309 | a platform in which `linux` does not occur is returned unchanged by `replace("linux", name)` |
| Linux.ManylinuxNameArmExample | pep425.py:309 | `linux_armv7l` renamed to manylinux2014 gives `manylinux2014_armv7l`: only the leading `linux` is replaced |
| Linux.LinuxPlatformsX86Example | pep425.py:298-316 | 64-bit `linux-x86_64` that accepts manylinux2010 gives `manylinux2010_x86_64`, `manylinux1_x86_64`, `linux_x86_64` |
| Linux.HostPlatform32BitExample | pep425.py:301-302 | a 32-bit interpreter on `linux-x86_64` reports `linux_i686` |
| Linux.IsManylinuxCompatible | pep425.py:256-266 | an answer from the `_manylinux` module wins; otherwise the result is true exactly when glibc is present with the same major version and at least the required minor version |
| Linux.GlibcTiersNested | pep425.py:291-295 | without overrides, a glibc that supports manylinux2010 supports manylinux1 too |
| Linux.LinuxPlatformsOfGlibc | pep425.py:298-316 | without overrides, glibc 2.12 or newer gives both tiers, 2.5 to 2.11 only manylinux1, and anything else neither |
| SysTags.InterpreterName | pep425.py:324-327 | the name is lower case; a known implementation gets its entry of `INTERPRETER_SHORT_NAMES`; others keep their lower-cased name |
| SysTags.InterpreterNameFamilies | pep425.py:11-17 | in any capitalisation, Python, CPython, PyPy, IronPython and Jython get `py`, `cp`, `pp`, `ip` and `jy`; only `cpython` and `cp` itself give `cp` |
| SysTags.AbiFlags | pep425.py:104-111 | the flags hold `d` exactly for debug builds, `m` exactly with pymalloc, `u` exactly for a four-byte `Py_UNICODE`, each at most once and in the order `d`, `m`, `u` |
| SysTags.AbiFlagsDebugPymalloc | pep425.py:104-111 | a debug build with pymalloc and a two-byte `Py_UNICODE` has the flags `dm` |
| SysTags.CPythonAbi | pep425.py:98-112 | the ABI fails exactly when SOABI is set with fewer than two dashes; otherwise it starts with `cp` |
| SysTags.CPythonAbiOfSoabi | pep425.py:101-102 | SOABI `{pre}-{options}-{rest}` gives `cp{options}` |
| SysTags.CPythonAbiWithoutSoabi | pep425.py:103-111 | without SOABI the ABI is `cp{M}{m}` followed by exactly the build's flags in the order `d`, `m`, `u` |
| SysTags.CPythonAbiExample | pep425.py:98-112 | SOABI `cpython-37m-darwin` gives `cp37m` |
| SysTags.GenericAbi | pep425.py:141-147 | `none` without SOABI; otherwise the normalised SOABI, as long as SOABI, with no `.` or `-` |
| SysTags.PyPyInterpreter | pep425.py:133-138 | `pp` followed by the Python major version, the PyPy major version and the PyPy minor version, written out in that order |
| SysTags.PyPyInterpreterExample | pep425.py:133-138 | PyPy 6.0 under Python 3 is `pp360` |
| SysTags.PyPyInterpreterAmbiguous | pep425.py:133-138 | the numbers are not separated, so PyPy 1.11 and PyPy 11.1 under Python 3 share the tag `pp3111` |
| SysTags.GenericInterpreter | pep425.py:330-334 | the name followed by `py_version_nodot`; fails exactly when that setting is missing |
| SysTags.GenericPlatforms | pep425.py:319-321 | exactly one platform, the normalised host platform |
| SysTags.PlatformsFor | pep425.py:346-352 | Darwin uses the macOS platforms of the host release and collapsed architecture, Linux uses the manylinux list ending with the host platform, anything else the single normalised host platform |
| SysTags.SysInterpreter | pep425.py:354-365 | CPython uses `cp{M}{m}`, PyPy the PyPy interpreter tag, and other interpreters their generic interpreter tag, which fails exactly when `py_version_nodot` is missing |
| SysTags.SysAbi | pep425.py:354-366 | CPython uses `_cpython_abi`, which fails exactly on a SOABI with fewer than two dashes; every other interpreter uses the generic ABI |
| SysTags.FamilyTags | pep425.py:354-368 | CPython runs `_cpython_tags`, PyPy `_pypy_tags` and every other interpreter `_generic_tags`; with platforms present the first tag pairs the interpreter and ABI with the first platform |
| SysTags.SysTagsOf | pep425.py:337-370 | `sys_tags` fails exactly when the interpreter or the ABI fails; otherwise it ends with the version-independent tail |
| SysTags.SysTagsSplit | pep425.py:354-370 | a successful `sys_tags` is the family block followed by the version-independent tail, both for the same interpreter and platforms |
| SysTags.SysTagsShape | pep425.py:337-370 | for each family, `sys_tags` is that family's generator, run with the family's interpreter and ABI tags, followed by the version-independent tail with the same interpreter |
| SysTags.SysTagsFailures | pep425.py:337-370 | `sys_tags` fails only for a malformed CPython SOABI, or for a generic interpreter without `py_version_nodot` |
| SysTags.SysTagsFirst | pep425.py:354-368 | with platforms present, the most preferred tag pairs the interpreter and ABI with the first platform |
| SysTags.SysTagsLast | pep425.py:369-370 | the least preferred tag is `py{M}0-none-any` when `m >= 1` and `py{M}-none-any` when `m == 0` |

## Left out

- Host introspection becomes parameters of `SysTags.Environment`:
  - `platform.python_implementation`, `platform.system` and `platform.mac_ver`;
  - `sys.version_info` and `sys.pypy_version_info`;
  - `sysconfig.get_config_var` and `distutils.util.get_platform`;
  - the 32-bit test `sys.maxsize <= 2 ** 32`.
- Parsing the `platform.mac_ver()` release string into `(major, minor)` (pep425/_mac.py:51, pep425.py:238) is not modelled. The environment holds the pair.
- `_have_compatible_glibc` loads `gnu_get_libc_version` through ctypes and parses its answer. That is a foreign call and is left out. Only its final comparison is modelled, inside `Linux.IsManylinuxCompatible`.
- Importing the `_manylinux` module is modelled as a map from tier name to answer. Whether the module or only the attribute is missing makes no difference.
- NatToString: its own contract states only the shape of `str(n)`. The value of the digits is stated by `Strings.NatToStringValue`, because every proof that mentions a version tag would otherwise carry it.
- CPythonTags: `Generators.CPythonTags` carries no contract of its own. Its length and every position are stated by `CPythonTagsLength`, `CPythonTagsAt`, `CPythonTagsStableAt` and `CPythonTagsOlderAt`. A contract on the function itself made the position proofs too expensive.
- Platforms: `MacOS.Platforms` carries no contract of its own. Its first entry, its members, its order and its size are stated by `PlatformsFirst`, `PlatformsMembers`, `PlatformsSuffix`, `PlatformsKeepMajor` and `PlatformsX86Count`. The same cost reason applies.
- CpTag: `Generators.CpTag` carries no contract of its own. Its digits are stated by `CpTagDigits`.
- Linux.ManylinuxName: the function's own contract covers only the cases where the platform comes back unchanged. The renamed value on `linux<rest>` is stated by `Linux.ManylinuxNameOfLinux`, and the general unchanged case by `Linux.ManylinuxNameUnchanged`. Stated on the function, they made the proofs about concrete platform strings too expensive.
- Strings.Lower: lower-cases ASCII letters only. Python's `str.lower` follows Unicode.
- Tags.StripExtension: models `posixpath.splitext` on `/`-separated paths. Windows separators and `pathlib` path objects are not modelled.
- `Tag.__repr__` is not modelled, because it prints the object's identity. `Tag.__hash__` is not modelled either. Structural equality of the datatype plays its part.
- Generator laziness is not modelled. Python raises the `sys_tags` error when the generator is first advanced. The model returns either the whole sequence or the error.
- Exception types are not modelled. The `ValueError` of tuple unpacking and the `TypeError` of `"".join` over integers both become constructors of `SysTags.SysError`.
- SysTags.GenericInterpreter: the source falls back to `"".join(py_version[:2])`, which raises for integer versions. The fallback is modelled as `MissingVersionNodot`.
- `MacOS.PlatformsAsWritten` models pep425/_mac.py:47-62 exactly as written. The rest of the model uses the corrected `MacOS.Platforms` (see Findings).
- `pep425/_generic.py` is not part of this model. Only its 32-bit flag is used, and that flag is a parameter.

## Findings

| source | as written | input that shows it | evidently intended | confidence | as-written member | corrected member |
|---|---|---|---|---|---|---|
| pep425/_mac.py:57 | `binary_formats(compat_version, cpu_arch)` uses the host's raw architecture from `platform.mac_ver()` and ignores the `arch` argument | `platforms((10, 5), "x86_64")` on a host whose `mac_ver` reports `i386`: the first platform is `macosx_10_5_i386` | `binary_formats(compat_version, arch)`, as pep425.py:244 does | not executed | MacOS.PlatformsAsWrittenIgnoresArch | MacOS.PlatformsFirst |
