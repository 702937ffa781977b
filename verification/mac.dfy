/** The macOS platform enumerator of pep425/_mac.py (the same logic appears
    as `_mac_arch`, `_mac_binary_formats` and `_mac_platforms` in
    pep425.py). The host's `platform.mac_ver()` answer becomes explicit
    parameters. */
module MacOS {
  import opened Wrappers
  import opened Strings

  /** A macOS version `(major, minor)`. */
  type MacVersion = (nat, nat)

  /** Python's lexicographic tuple comparison `a < b`. */
  predicate VersionLess(a: MacVersion, b: MacVersion) {
    a.0 < b.0 || (a.0 == b.0 && a.1 < b.1)
  }

  /** `architecture`: a 32-bit interpreter reports "ppc" for any PowerPC
      architecture and "i386" for everything else; a 64-bit interpreter
      reports the architecture unchanged. */
  function Architecture(arch: string, is32Bit: bool): (r: string)
    ensures !is32Bit ==> r == arch
    ensures is32Bit ==> (r == "ppc" <==> StartsWith(arch, "ppc"))
    ensures is32Bit ==> (r == "ppc" || r == "i386")
  {
    if is32Bit then
      if StartsWith(arch, "ppc") then "ppc" else "i386"
    else
      arch
  }

  /** Collapsing an architecture a second time changes nothing. */
  lemma ArchitectureIdempotent(arch: string, is32Bit: bool)
    ensures Architecture(Architecture(arch, is32Bit), is32Bit) == Architecture(arch, is32Bit)
  {
    if is32Bit {
      assert StartsWith("ppc", "ppc");
      assert !StartsWith("i386", "ppc") by {
        assert "i386"[..3][0] == 'i';
      }
    }
  }

  /** `binary_formats`: the formats a binary for `cpuArch` may be built as
      and still run on macOS `version`, most specific first; empty when
      that architecture never ran on that release. */
  function BinaryFormats(version: MacVersion, cpuArch: string): (r: seq<string>)
    ensures r != [] ==> r[0] == cpuArch && r[|r| - 1] == "universal"
  {
    var extra: Option<seq<string>> :=
      if cpuArch == "x86_64" then
        if !VersionLess(version, (10, 4)) then Some(["intel", "fat64", "fat32"]) else None
      else if cpuArch == "i386" then
        if !VersionLess(version, (10, 4)) then Some(["intel", "fat32", "fat"]) else None
      else if cpuArch == "ppc64" then
        if VersionLess((10, 5), version) || VersionLess(version, (10, 4)) then None else Some(["fat64"])
      else if cpuArch == "ppc" then
        if !VersionLess((10, 6), version) then Some(["fat32", "fat"]) else None
      else
        Some([]);
    if extra.None? then [] else [cpuArch] + extra.value + ["universal"]
  }

  /** The compatibility table: x86_64 and i386 from 10.4 on, ppc64 only on
      10.4 and 10.5, ppc up to 10.6, any other architecture always as
      itself or universal. */
  lemma BinaryFormatsTable(version: MacVersion, cpuArch: string)
    ensures cpuArch == "x86_64" ==> (BinaryFormats(version, cpuArch)
      == if VersionLess(version, (10, 4)) then [] else ["x86_64", "intel", "fat64", "fat32", "universal"])
    ensures cpuArch == "i386" ==> (BinaryFormats(version, cpuArch)
      == if VersionLess(version, (10, 4)) then [] else ["i386", "intel", "fat32", "fat", "universal"])
    ensures cpuArch == "ppc64" ==> (BinaryFormats(version, cpuArch)
      == if VersionLess((10, 5), version) || VersionLess(version, (10, 4)) then [] else ["ppc64", "fat64", "universal"])
    ensures cpuArch == "ppc" ==> (BinaryFormats(version, cpuArch)
      == if VersionLess((10, 6), version) then [] else ["ppc", "fat32", "fat", "universal"])
    ensures cpuArch !in {"x86_64", "i386", "ppc64", "ppc"} ==> BinaryFormats(version, cpuArch) == [cpuArch, "universal"]
  {
  }

  /** "macosx_{major}_{minor}_{format}". */
  function PlatformName(major: nat, minor: nat, format: string): (r: string)
    ensures StartsWith(r, "macosx_" + NatToString(major) + "_")
    ensures |format| < |r| && r[|r| - |format| - 1..] == "_" + format
  {
    var prefix := "macosx_" + NatToString(major) + "_";
    var r := prefix + NatToString(minor) + "_" + format;
    assert r == prefix + (NatToString(minor) + "_" + format);
    assert r[|r| - |format| - 1..] == "_" + format;
    r
  }

  /** A platform name determines its release and its binary format: no two
      different `(major, minor, format)` triples share a name. */
  lemma PlatformNameInjective(major: nat, minor: nat, format: string, major2: nat, minor2: nat, format2: string)
    requires PlatformName(major, minor, format) == PlatformName(major2, minor2, format2)
    ensures major == major2 && minor == minor2 && format == format2
  {
    var a, b := NatToString(major), NatToString(minor);
    var a2, b2 := NatToString(major2), NatToString(minor2);
    PlatformNameAfterPrefix(major, minor, format);
    PlatformNameAfterPrefix(major2, minor2, format2);
    DigitsNoUnderscore(a);
    DigitsNoUnderscore(b);
    DigitsNoUnderscore(a2);
    DigitsNoUnderscore(b2);
    SplitAtFirst(a, b + "_" + format, a2, b2 + "_" + format2, '_');
    SplitAtFirst(b, format, b2, format2, '_');
    NatToStringInjective(major, major2);
    NatToStringInjective(minor, minor2);
  }

  /** After "macosx_" a platform name reads `{major}_{minor}_{format}`. */
  lemma PlatformNameAfterPrefix(major: nat, minor: nat, format: string)
    ensures PlatformName(major, minor, format)[7..] == NatToString(major) + "_" + (NatToString(minor) + "_" + format)
  {
    var rest := NatToString(major) + "_" + (NatToString(minor) + "_" + format);
    assert PlatformName(major, minor, format) == "macosx_" + rest;
  }

  /** Decimal digits never include an underscore. */
  lemma DigitsNoUnderscore(s: string)
    requires IsDigits(s)
    ensures '_' !in s
  {
    assert forall i :: 0 <= i < |s| ==> s[i] != '_';
  }


  /** One platform name per binary format of macOS `major.minor`. */
  function FormatBlock(major: nat, minor: nat, arch: string): (r: seq<string>)
    ensures |r| == |BinaryFormats((major, minor), arch)|
    ensures forall f :: 0 <= f < |r| ==> r[f] == PlatformName(major, minor, BinaryFormats((major, minor), arch)[f])
  {
    var formats := BinaryFormats((major, minor), arch);
    seq(|formats|, f requires 0 <= f < |formats| => PlatformName(major, minor, formats[f]))
  }

  /** `platforms(version, arch)`: the format block of every minor release
      from `version.1` down to 0, the major release held fixed, newest
      first. The source at pep425/_mac.py:57 passes the host's raw
      `cpu_arch` instead of `arch`; this is the corrected definition, see
      `PlatformsAsWritten`. */
  function Platforms(version: MacVersion, arch: string): (r: seq<string>)
    decreases version.1
  {
    FormatBlock(version.0, version.1, arch)
      + if version.1 == 0 then [] else Platforms((version.0, version.1 - 1), arch)
  }

  /** The code at pep425/_mac.py:47-62 as written: `arch` only matters when
      it is absent, and the formats come from the host's `cpu_arch`. */
  function PlatformsAsWritten(version: MacVersion, arch: string, hostCpuArch: string): (r: seq<string>)
    ensures BinaryFormats(version, hostCpuArch) != [] ==> r != [] && r[0] == PlatformName(version.0, version.1, hostCpuArch)
  {
    Platforms(version, hostCpuArch)
  }

  /** A name is in a format block exactly when it names that release with
      one of its binary formats. */
  lemma FormatBlockMembers(major: nat, minor: nat, arch: string, name: string)
    ensures name in FormatBlock(major, minor, arch)
        <==> exists format :: format in BinaryFormats((major, minor), arch) && name == PlatformName(major, minor, format)
  {
    var block := FormatBlock(major, minor, arch);
    var formats := BinaryFormats((major, minor), arch);
    if name in block {
      var f :| 0 <= f < |block| && block[f] == name;
      assert formats[f] in formats;
    }
    if exists format :: format in formats && name == PlatformName(major, minor, format) {
      var format :| format in formats && name == PlatformName(major, minor, format);
      var f :| 0 <= f < |formats| && formats[f] == format;
      assert block[f] == name;
    }
  }

  /** The platform `name` lists macOS `major.minor` with binary format `format`. */
  predicate Names(name: string, major: nat, minor: nat, arch: string, format: string) {
    format in BinaryFormats((major, minor), arch) && name == PlatformName(major, minor, format)
  }

  /** A name is among the platforms exactly when it is in the format block
      of some minor release up to `version.1` of the same major release. */
  lemma {:induction false} PlatformsBlocks(version: MacVersion, arch: string, name: string)
    ensures name in Platforms(version, arch)
        <==> exists minor: nat :: minor <= version.1 && name in FormatBlock(version.0, minor, arch)
    decreases version.1
  {
    var block := FormatBlock(version.0, version.1, arch);
    var rest := if version.1 == 0 then [] else Platforms((version.0, version.1 - 1), arch);
    assert Platforms(version, arch) == block + rest;
    if version.1 > 0 {
      PlatformsBlocks((version.0, version.1 - 1), arch, name);
    }
    if exists minor: nat :: minor <= version.1 && name in FormatBlock(version.0, minor, arch) {
      var minor: nat :| minor <= version.1 && name in FormatBlock(version.0, minor, arch);
      if minor == version.1 {
        assert name in block;
      } else {
        assert name in rest;
      }
    }
  }

  /** A name is among the platforms exactly when it names some minor release
      up to `version.1` of the same major release with one of that
      release's binary formats. */
  lemma PlatformsMembers(version: MacVersion, arch: string, name: string)
    ensures name in Platforms(version, arch)
        <==> exists minor: nat, format :: minor <= version.1 && Names(name, version.0, minor, arch, format)
  {
    PlatformsBlocks(version, arch, name);
    if name in Platforms(version, arch) {
      var minor: nat :| minor <= version.1 && name in FormatBlock(version.0, minor, arch);
      FormatBlockMembers(version.0, minor, arch, name);
      var format :| format in BinaryFormats((version.0, minor), arch) && name == PlatformName(version.0, minor, format);
      assert Names(name, version.0, minor, arch, format);
    }
    if exists minor: nat, format :: minor <= version.1 && Names(name, version.0, minor, arch, format) {
      var minor: nat, format :| minor <= version.1 && Names(name, version.0, minor, arch, format);
      FormatBlockMembers(version.0, minor, arch, name);
      assert name in FormatBlock(version.0, minor, arch);
    }
  }

  /** Older releases come after newer ones: the platforms of any earlier
      minor release of the same major release are a suffix. */
  lemma {:induction false} PlatformsSuffix(major: nat, newer: nat, older: nat, arch: string)
    requires older <= newer
    ensures IsSuffix(Platforms((major, older), arch), Platforms((major, newer), arch))
    decreases newer
  {
    if older < newer {
      PlatformsUnfold((major, newer), arch);
      PlatformsSuffix(major, newer - 1, older, arch);
      SuffixExtends(FormatBlock(major, newer, arch), Platforms((major, newer - 1), arch),
                    Platforms((major, older), arch));
    } else {
      SuffixOfSelf(Platforms((major, newer), arch));
    }
  }

  /** `a` ends `b`. */
  predicate IsSuffix(a: seq<string>, b: seq<string>) {
    |a| <= |b| && b[|b| - |a|..] == a
  }

  lemma SuffixOfSelf(a: seq<string>)
    ensures IsSuffix(a, a)
  {
    assert a[|a| - |a|..] == a;
  }

  /** One step of the walk down the minor releases. */
  lemma PlatformsUnfold(version: MacVersion, arch: string)
    requires version.1 > 0
    ensures Platforms(version, arch)
         == FormatBlock(version.0, version.1, arch) + Platforms((version.0, version.1 - 1), arch)
  {
  }

  /** A suffix of `rest` is a suffix of `block + rest`. */
  lemma SuffixExtends(block: seq<string>, rest: seq<string>, older: seq<string>)
    requires IsSuffix(older, rest)
    ensures IsSuffix(older, block + rest)
  {
    assert (block + rest)[|block + rest| - |older|..] == rest[|rest| - |older|..];
  }

  /** Every platform keeps the major release of the requested version. */
  lemma {:induction false} PlatformsKeepMajor(version: MacVersion, arch: string, k: nat)
    requires k < |Platforms(version, arch)|
    ensures StartsWith(Platforms(version, arch)[k], "macosx_" + NatToString(version.0) + "_")
    decreases version.1
  {
    var block := FormatBlock(version.0, version.1, arch);
    if k >= |block| {
      var rest := Platforms((version.0, version.1 - 1), arch);
      assert Platforms(version, arch) == block + rest;
      PlatformsKeepMajor((version.0, version.1 - 1), arch, k - |block|);
    }
  }

  /** When the given release has any format, the first platform is
      `macosx_{major}_{minor}_{arch}`. */
  lemma PlatformsFirst(version: MacVersion, arch: string)
    requires BinaryFormats(version, arch) != []
    ensures Platforms(version, arch) != [] && Platforms(version, arch)[0] == PlatformName(version.0, version.1, arch)
  {
  }

  /** For x86_64 on major release 10, each minor release from 10.4 on
      contributes five platforms and earlier ones none. */
  lemma {:induction false} PlatformsX86Count(minor: nat)
    ensures |Platforms((10, minor), "x86_64")| == if minor >= 4 then 5 * (minor - 3) else 0
    decreases minor
  {
    BinaryFormatsTable((10, minor), "x86_64");
    if minor > 0 {
      PlatformsX86Count(minor - 1);
    }
  }

  /** As written, the platforms ignore `arch`: whenever the requested
      architecture differs from the host's and the release supports both,
      the list differs from the one for the requested architecture. */
  lemma PlatformsAsWrittenIgnoresArch(version: MacVersion, arch: string, hostCpuArch: string)
    requires arch != hostCpuArch
    requires BinaryFormats(version, arch) != [] && BinaryFormats(version, hostCpuArch) != []
    ensures PlatformsAsWritten(version, arch, hostCpuArch) != Platforms(version, arch)
  {
    if PlatformsAsWritten(version, arch, hostCpuArch) == Platforms(version, arch) {
      PlatformNameInjective(version.0, version.1, hostCpuArch, version.0, version.1, arch);
    }
  }

  /** On a host that reports "i386", asking for the "x86_64" platforms of
      10.5 starts with "macosx_10_5_i386" instead of "macosx_10_5_x86_64". */
  lemma PlatformsAsWrittenExample()
    ensures PlatformsAsWritten((10, 5), "x86_64", "i386")[0] == PlatformName(10, 5, "i386")
    ensures Platforms((10, 5), "x86_64")[0] == PlatformName(10, 5, "x86_64")
    ensures PlatformsAsWritten((10, 5), "x86_64", "i386") != Platforms((10, 5), "x86_64")
  {
    BinaryFormatsTable((10, 5), "x86_64");
    BinaryFormatsTable((10, 5), "i386");
    PlatformsAsWrittenIgnoresArch((10, 5), "x86_64", "i386");
  }

}
