/** The Linux platform enumerator of pep425.py: `_linux_platforms`, the
    manylinux tier chain of PEP 513 and PEP 571, and the glibc comparison
    its default probe ends in. The host platform string, the bitness of the
    interpreter and the manylinux probe are parameters. */
module Linux {
  import opened Wrappers
  import opened Strings

  /** A glibc version `(major, minor)`. */
  type GlibcVersion = (nat, nat)

  /** `_is_manylinux_compatible(name, glibc_version)`: whether the host
      runs wheels of the manylinux tier `name` that needs `glibc_version`. */
  type ManylinuxProbe = (string, GlibcVersion) -> bool

  /** A manylinux tier: its platform prefix and the glibc it was built against. */
  datatype Tier = Tier(name: string, glibc: GlibcVersion)

  /** `manylinux_support`, newest tier first: manylinux2010 (CentOS 6, glibc
      2.12), then manylinux1 (CentOS 5, glibc 2.5). */
  const ManylinuxSupport: seq<Tier> := [Tier("manylinux2010", (2, 12)), Tier("manylinux1", (2, 5))]

  /** The host platform as a tag: `_normalize_string` of the distutils
      platform, with "linux_x86_64" reported as "linux_i686" under a 32-bit
      interpreter. */
  function HostPlatform(platform: string, is32Bit: bool): (r: string)
    ensures '.' !in r && '-' !in r
    ensures !is32Bit ==> r == NormalizeString(platform)
    ensures NormalizeString(platform) != "linux_x86_64" ==> r == NormalizeString(platform)
    ensures is32Bit && NormalizeString(platform) == "linux_x86_64" ==> r == "linux_i686"
  {
    var linux := NormalizeString(platform);
    if linux == "linux_x86_64" && is32Bit then "linux_i686" else linux
  }

  /** `linux.replace("linux", name)`: the manylinux spelling of a platform. */
  function ManylinuxName(linux: string, name: string): (r: string)
    ensures 'l' !in linux ==> r == linux
    ensures name == "linux" ==> r == linux
  {
    var r := ReplaceAll(linux, "linux", name);
    assert 'l' !in linux ==> r == linux by {
      if 'l' !in linux {
        ReplaceAllAbsent(linux, "linux", name);
      }
    }
    r
  }

  /** The `for ... else` over `manylinux_support`: the tiers from the first
      one the probe accepts to the end, or none when it accepts none. Later
      tiers are taken without asking the probe again. */
  function AcceptedTiers(tiers: seq<Tier>, probe: ManylinuxProbe): (r: seq<Tier>)
    ensures |r| <= |tiers| && r == tiers[|tiers| - |r|..]
    ensures r != [] ==> probe(r[0].name, r[0].glibc)
    ensures forall k :: 0 <= k < |tiers| - |r| ==> !probe(tiers[k].name, tiers[k].glibc)
  {
    if |tiers| == 0 then []
    else if probe(tiers[0].name, tiers[0].glibc) then tiers
    else AcceptedTiers(tiers[1..], probe)
  }

  /** Two probes that agree on a prefix of the tiers which ends in an
      accepted tier choose the same tiers: nothing after the first accepted
      tier is consulted. */
  lemma {:induction false} AcceptedTiersStopsAtFirst(tiers: seq<Tier>, p: ManylinuxProbe, q: ManylinuxProbe, k: nat)
    requires k < |tiers|
    requires p(tiers[k].name, tiers[k].glibc) && q(tiers[k].name, tiers[k].glibc)
    requires forall i :: 0 <= i < k ==> p(tiers[i].name, tiers[i].glibc) == q(tiers[i].name, tiers[i].glibc)
    ensures AcceptedTiers(tiers, p) == AcceptedTiers(tiers, q)
  {
    if k > 0 && !p(tiers[0].name, tiers[0].glibc) {
      assert !q(tiers[0].name, tiers[0].glibc);
      AcceptedTiersStopsAtFirst(tiers[1..], p, q, k - 1);
    }
  }

  /** The list comprehension `[linux.replace("linux", name) for name, _ in tiers]`. */
  function RenameAll(linux: string, tiers: seq<Tier>): (r: seq<string>)
    ensures |r| == |tiers|
    ensures forall i :: 0 <= i < |tiers| ==> r[i] == ManylinuxName(linux, tiers[i].name)
  {
    seq(|tiers|, i requires 0 <= i < |tiers| => ManylinuxName(linux, tiers[i].name))
  }

  /** `_linux_platforms`: the host platform renamed to every accepted
      manylinux tier, newest first, then the host platform itself. */
  function LinuxPlatforms(platform: string, is32Bit: bool, probe: ManylinuxProbe): (r: seq<string>)
    ensures 1 <= |r| <= 3
    ensures r[|r| - 1] == HostPlatform(platform, is32Bit)
  {
    var linux := HostPlatform(platform, is32Bit);
    RenameAll(linux, AcceptedTiers(ManylinuxSupport, probe)) + [linux]
  }

  /** The three outcomes of the tier chain: support for manylinux2010
      implies support for manylinux1 without asking; otherwise manylinux1
      is asked about; the host platform always comes last. */
  lemma LinuxPlatformsTiers(platform: string, is32Bit: bool, probe: ManylinuxProbe)
    ensures var x := HostPlatform(platform, is32Bit);
            var r := LinuxPlatforms(platform, is32Bit, probe);
            && (probe("manylinux2010", (2, 12)) ==>
                  r == [ManylinuxName(x, "manylinux2010"), ManylinuxName(x, "manylinux1"), x])
            && (!probe("manylinux2010", (2, 12)) && probe("manylinux1", (2, 5)) ==>
                  r == [ManylinuxName(x, "manylinux1"), x])
            && (!probe("manylinux2010", (2, 12)) && !probe("manylinux1", (2, 5)) ==>
                  r == [x])
  {
    var x := HostPlatform(platform, is32Bit);
    var tiers := ManylinuxSupport;
    var accepted := AcceptedTiers(tiers, probe);
    var r := LinuxPlatforms(platform, is32Bit, probe);
    assert tiers[0] == Tier("manylinux2010", (2, 12));
    assert tiers[1] == Tier("manylinux1", (2, 5));
    if probe("manylinux2010", (2, 12)) {
      assert accepted == tiers;
      assert r == [ManylinuxName(x, "manylinux2010"), ManylinuxName(x, "manylinux1"), x];
    } else if probe("manylinux1", (2, 5)) {
      assert accepted == AcceptedTiers(tiers[1..], probe) == tiers[1..];
      assert r == [ManylinuxName(x, "manylinux1"), x];
    } else {
      assert accepted == AcceptedTiers(tiers[1..], probe);
      assert AcceptedTiers(tiers[1..], probe) == AcceptedTiers(tiers[1..][1..], probe);
      assert tiers[1..][1..] == [];
      assert r == [x];
    }
  }

  /** When manylinux2010 is accepted the answer for manylinux1 does not matter. */
  lemma LinuxPlatformsIgnoresManylinux1(platform: string, is32Bit: bool, p: ManylinuxProbe, q: ManylinuxProbe)
    requires p("manylinux2010", (2, 12)) && q("manylinux2010", (2, 12))
    ensures LinuxPlatforms(platform, is32Bit, p) == LinuxPlatforms(platform, is32Bit, q)
  {
    assert ManylinuxSupport[0] == Tier("manylinux2010", (2, 12));
    AcceptedTiersStopsAtFirst(ManylinuxSupport, p, q, 0);
  }

  /** On a platform spelled "linux" followed by text in which "linux" does
      not occur again, the manylinux spelling swaps the leading "linux" for
      the tier name. */
  lemma ManylinuxNameOfLinux(rest: string, name: string)
    requires !Contains(rest, "linux")
    ensures ManylinuxName("linux" + rest, name) == name + rest
  {
    ReplaceAllPrefix("linux", rest, name);
    ReplaceAllNoOccurrence(rest, "linux", name);
  }

  /** A platform in which "linux" does not occur has no manylinux
      spelling of its own: it is returned unchanged. */
  lemma ManylinuxNameUnchanged(linux: string, name: string)
    requires !Contains(linux, "linux")
    ensures ManylinuxName(linux, name) == linux
  {
    ReplaceAllNoOccurrence(linux, "linux", name);
  }

  /** The common case of `ManylinuxNameOfLinux`: a rest that lacks one of
      the letters of "linux" cannot contain it. */
  lemma ManylinuxNameOfLinuxWithout(rest: string, name: string, j: nat)
    requires j < 5 && "linux"[j] !in rest
    ensures ManylinuxName("linux" + rest, name) == name + rest
  {
    NoOccurrenceWithout(rest, "linux", j);
    ManylinuxNameOfLinux(rest, name);
  }

  /** "linux_armv7l" has an "l" after the prefix, yet only the leading
      "linux" is renamed. */
  lemma ManylinuxNameArmExample()
    ensures ManylinuxName("linux_armv7l", "manylinux2014") == "manylinux2014_armv7l"
  {
    var rest := "_armv7l";
    assert "linux_armv7l" == "linux" + rest;
    ManylinuxNameOfLinuxWithout(rest, "manylinux2014", 1);
    assert "manylinux2014" + rest == "manylinux2014_armv7l";
  }

  /** A 64-bit interpreter on "linux-x86_64" whose probe accepts
      manylinux2010 gets all three platforms. */
  lemma LinuxPlatformsX86Example(platform: string, probe: ManylinuxProbe)
    requires platform == "linux-x86_64"
    requires probe("manylinux2010", (2, 12))
    ensures LinuxPlatforms(platform, false, probe) == ["manylinux2010_x86_64", "manylinux1_x86_64", "linux_x86_64"]
  {
    HostPlatformX86(platform);
    LinuxPlatformsTiers(platform, false, probe);
    ManylinuxNameX86("manylinux2010");
    ManylinuxNameX86("manylinux1");
    assert "manylinux2010" + "_x86_64" == "manylinux2010_x86_64";
    assert "manylinux1" + "_x86_64" == "manylinux1_x86_64";
  }

  /** A 64-bit interpreter on "linux-x86_64" reports "linux_x86_64". */
  lemma HostPlatformX86(platform: string)
    requires platform == "linux-x86_64"
    ensures HostPlatform(platform, false) == "linux_x86_64"
  {
    assert NormalizeString(platform) == "linux_x86_64";
  }

  /** The manylinux spellings of "linux_x86_64". */
  lemma ManylinuxNameX86(name: string)
    ensures ManylinuxName("linux_x86_64", name) == name + "_x86_64"
  {
    assert "linux_x86_64" == "linux" + "_x86_64";
    ManylinuxNameOfLinuxWithout("_x86_64", name, 1);
  }

  /** A 32-bit interpreter on a 64-bit x86 Linux reports "linux_i686". */
  lemma HostPlatform32BitExample(platform: string)
    requires platform == "linux-x86_64"
    ensures HostPlatform(platform, true) == "linux_i686"
  {
    assert NormalizeString(platform) == "linux_x86_64";
  }

  /** The comparison `_have_compatible_glibc` ends in: the running glibc
      has the required major version and at least the required minor
      version. */
  predicate GlibcCompatible(required: GlibcVersion, running: GlibcVersion) {
    required.0 == running.0 && required.1 <= running.1
  }

  /** `_is_manylinux_compatible`: an answer the `_manylinux` module gives
      for `name` wins; otherwise the running glibc decides, and a process
      not linked against glibc (`None`) supports no tier. */
  function IsManylinuxCompatible(overrides: map<string, bool>, running: Option<GlibcVersion>,
                                 name: string, required: GlibcVersion): (r: bool)
    ensures name in overrides ==> r == overrides[name]
    ensures name !in overrides && running.None? ==> !r
    ensures name !in overrides && running.Some? ==>
              (r <==> running.value.0 == required.0 && running.value.1 >= required.1)
  {
    if name in overrides then overrides[name]
    else running.Some? && GlibcCompatible(required, running.value)
  }

  /** With no module overrides, a glibc new enough for manylinux2010 is new
      enough for manylinux1, the backwards compatibility PEP 571 promises. */
  lemma GlibcTiersNested(running: Option<GlibcVersion>)
    ensures IsManylinuxCompatible(map[], running, "manylinux2010", (2, 12))
        ==> IsManylinuxCompatible(map[], running, "manylinux1", (2, 5))
  {
  }

  /** The glibc probe used by `_linux_platforms` on a host without overrides. */
  function GlibcProbe(running: Option<GlibcVersion>): ManylinuxProbe {
    (name: string, required: GlibcVersion) => IsManylinuxCompatible(map[], running, name, required)
  }

  /** On a host without overrides, glibc 2.12 or newer in the 2.x series
      gives both manylinux tiers, glibc 2.5 to 2.11 only manylinux1, and any
      other glibc (or none) neither. */
  lemma LinuxPlatformsOfGlibc(platform: string, is32Bit: bool, running: Option<GlibcVersion>)
    ensures var x := HostPlatform(platform, is32Bit);
            var r := LinuxPlatforms(platform, is32Bit, GlibcProbe(running));
            && (running.Some? && running.value.0 == 2 && running.value.1 >= 12 ==>
                  r == [ManylinuxName(x, "manylinux2010"), ManylinuxName(x, "manylinux1"), x])
            && (running.Some? && running.value.0 == 2 && 5 <= running.value.1 < 12 ==>
                  r == [ManylinuxName(x, "manylinux1"), x])
            && (running.None? || running.value.0 != 2 || running.value.1 < 5 ==> r == [x])
  {
    var probe := GlibcProbe(running);
    assert probe("manylinux2010", (2, 12)) <==> running.Some? && running.value.0 == 2 && running.value.1 >= 12;
    assert probe("manylinux1", (2, 5)) <==> running.Some? && running.value.0 == 2 && running.value.1 >= 5;
    LinuxPlatformsTiers(platform, is32Bit, probe);
  }
}
