/** `sys_tags` of pep425.py and the interpreter, ABI and platform helpers
    it draws on. Everything the Python code asks of the host (`platform`,
    `sys`, `sysconfig`, `distutils`, the manylinux probe) arrives in an
    `Environment` record. */
module SysTags {
  import opened Wrappers
  import opened Strings
  import opened Tags
  import opened Generators
  import MacOS
  import Linux

  /** The `sysconfig` configuration variables the tag engine reads. An
      unset string variable is "" (Python's `None` and "" are both false
      there); an unset `Py_UNICODE_SIZE` is `None`. */
  datatype ConfigVars = ConfigVars(
    soabi: string,
    pyDebug: bool,
    withPymalloc: bool,
    unicodeSize: Option<int>,
    pyVersionNodot: string)

  /** What `sys_tags` learns from the running host. */
  datatype Environment = Environment(
    implementation: string,               // platform.python_implementation()
    version: Version,                     // sys.version_info[:2]
    pypyVersion: (nat, nat),              // sys.pypy_version_info major and minor
    system: string,                       // platform.system()
    is32Bit: bool,                        // sys.maxsize <= 2 ** 32
    macVersion: MacOS.MacVersion,         // platform.mac_ver() release, major and minor
    macCpuArch: string,                   // platform.mac_ver() machine
    hostPlatform: string,                 // distutils.util.get_platform()
    manylinuxProbe: Linux.ManylinuxProbe, // _is_manylinux_compatible
    config: ConfigVars)

  /** The failures `sys_tags` reports by raising an exception. */
  datatype SysError =
    | MalformedSoabi      // _cpython_abi: SOABI has fewer than two dashes
    | MissingVersionNodot // _generic_interpreter: no py_version_nodot setting

  /** `INTERPRETER_SHORT_NAMES`. */
  const InterpreterShortNames: map<string, string> :=
    map["python" := "py", "cpython" := "cp", "pypy" := "pp", "ironpython" := "ip", "jython" := "jy"]

  /** `_interpreter_name`: the lower-cased implementation name, abbreviated
      when it has a short name. */
  function InterpreterName(implementation: string): (r: string)
    ensures IsLower(r)
    ensures Lower(implementation) in InterpreterShortNames ==> r == InterpreterShortNames[Lower(implementation)]
    ensures Lower(implementation) !in InterpreterShortNames ==> r == Lower(implementation)
  {
    var name := Lower(implementation);
    if name in InterpreterShortNames then InterpreterShortNames[name] else name
  }

  /** The five known implementations in any capitalisation get their
      two-letter names; "CPython" and "PyPy" select the two special families. */
  lemma InterpreterNameFamilies(implementation: string)
    ensures Lower(implementation) == "python" ==> InterpreterName(implementation) == "py"
    ensures Lower(implementation) == "cpython" ==> InterpreterName(implementation) == "cp"
    ensures Lower(implementation) == "pypy" ==> InterpreterName(implementation) == "pp"
    ensures Lower(implementation) == "ironpython" ==> InterpreterName(implementation) == "ip"
    ensures Lower(implementation) == "jython" ==> InterpreterName(implementation) == "jy"
    ensures InterpreterName(implementation) == "cp" ==> Lower(implementation) in {"cpython", "cp"}
  {
  }

  /** The ABI flags CPython builds without SOABI report: `d` for a debug
      build, `m` for pymalloc, `u` for a four-byte `Py_UNICODE`. */
  function AbiFlags(config: ConfigVars): (r: string)
    ensures 'd' in r <==> config.pyDebug
    ensures 'm' in r <==> config.withPymalloc
    ensures 'u' in r <==> config.unicodeSize == Some(4)
    ensures |r| == (if config.pyDebug then 1 else 0) + (if config.withPymalloc then 1 else 0)
                   + (if config.unicodeSize == Some(4) then 1 else 0)
    ensures forall i :: 0 <= i < |r| ==> r[i] in "dmu"
    ensures forall i, j :: 0 <= i < j < |r| ==> FlagRank(r[i]) < FlagRank(r[j])
  {
    (if config.pyDebug then "d" else "")
      + (if config.withPymalloc then "m" else "")
      + (if config.unicodeSize == Some(4) then "u" else "")
  }

  /** The position of an ABI flag in the order `d`, `m`, `u`. */
  function FlagRank(c: char): nat {
    if c == 'd' then 0 else if c == 'm' then 1 else 2
  }

  /** `_cpython_abi`: "cp" followed by the text between the first two dashes
      of SOABI; without SOABI, `cp{major}{minor}` and the flags. The tuple
      unpacking of `soabi.split("-", 2)` fails when SOABI has fewer than
      two dashes. */
  function CPythonAbi(version: Version, config: ConfigVars): (r: Result<string, SysError>)
    ensures r.Failure? <==> config.soabi != "" && Count(config.soabi, '-') < 2
    ensures r.Failure? ==> r.error == MalformedSoabi
    ensures r.Success? ==> StartsWith(r.value, "cp")
  {
    if config.soabi != "" then
      var parts := Split(config.soabi, '-');
      if |parts| < 3 then Failure(MalformedSoabi) else Success("cp" + parts[1])
    else
      Success(CpTag(version.0, version.1) + AbiFlags(config))
  }

  /** With SOABI `{pre}-{options}-{rest}`, the ABI is `cp{options}`. */
  lemma CPythonAbiOfSoabi(version: Version, config: ConfigVars, pre: string, options: string, rest: string)
    requires config.soabi == pre + "-" + options + "-" + rest
    requires '-' !in pre && '-' !in options
    ensures CPythonAbi(version, config) == Success("cp" + options)
  {
    SplitAfterPiece(options, '-', rest);
    assert config.soabi == pre + ['-'] + (options + ['-'] + rest);
    SplitAfterPiece(pre, '-', options + ['-'] + rest);
  }

  /** Without SOABI the ABI is the interpreter tag `cp{major}{minor}`
      followed by exactly the flags the build has. */
  lemma CPythonAbiWithoutSoabi(version: Version, config: ConfigVars)
    requires config.soabi == ""
    ensures var abi := CPythonAbi(version, config).value;
            var n := |CpTag(version.0, version.1)|;
            && n <= |abi| <= n + 3
            && abi[..n] == CpTag(version.0, version.1)
            && abi[n..] == AbiFlags(config)
            && ('d' in abi[n..] <==> config.pyDebug)
            && ('m' in abi[n..] <==> config.withPymalloc)
            && ('u' in abi[n..] <==> config.unicodeSize == Some(4))
  {
    var tag := CpTag(version.0, version.1);
    var abi := tag + AbiFlags(config);
    assert abi[..|tag|] == tag;
    assert abi[|tag|..] == AbiFlags(config);
  }

  /** The SOABI of CPython 3.7 on macOS gives "cp37m". */
  lemma CPythonAbiExample(version: Version, config: ConfigVars)
    requires config.soabi == "cpython-37m-darwin"
    ensures CPythonAbi(version, config) == Success("cp37m")
  {
    SoabiExamplePieces();
    CPythonAbiOfSoabi(version, config, "cpython", "37m", "darwin");
  }

  /** The pieces of the example SOABI, spelled out. */
  lemma SoabiExamplePieces()
    ensures "cpython-37m-darwin" == "cpython" + "-" + "37m" + "-" + "darwin"
    ensures '-' !in "cpython" && '-' !in "37m"
    ensures "cp" + "37m" == "cp37m"
  {
  }

  /** `_generic_abi`: the normalised SOABI, or "none" when there is none. */
  function GenericAbi(config: ConfigVars): (r: string)
    ensures '.' !in r && '-' !in r
    ensures config.soabi == "" ==> r == "none"
    ensures config.soabi != "" ==> r == NormalizeString(config.soabi)
  {
    if config.soabi != "" then NormalizeString(config.soabi) else "none"
  }

  /** `_pypy_interpreter`: "pp{python major}{pypy major}{pypy minor}". */
  function PyPyInterpreter(pyMajor: nat, pypyVersion: (nat, nat)): (r: string)
    ensures r == "pp" + NatToString(pyMajor) + NatToString(pypyVersion.0) + NatToString(pypyVersion.1)
    ensures StartsWith(r, "pp") && IsDigits(r[2..]) && |r| >= 5
  {
    "pp" + NatToString(pyMajor) + NatToString(pypyVersion.0) + NatToString(pypyVersion.1)
  }

  /** PyPy 6.0 under Python 3 is "pp360". */
  lemma PyPyInterpreterExample()
    ensures PyPyInterpreter(3, (6, 0)) == "pp360"
  {
    assert NatToString(3) == "3" && NatToString(6) == "6" && NatToString(0) == "0";
  }

  /** The three numbers are written without separators, so different
      versions can share a tag: PyPy 1.11 and PyPy 11.1 under Python 3
      are both "pp3111". */
  lemma PyPyInterpreterAmbiguous()
    ensures PyPyInterpreter(3, (1, 11)) == PyPyInterpreter(3, (11, 1)) == "pp3111"
  {
    assert NatToString(3) == "3" && NatToString(1) == "1";
    assert NatToString(11) == NatToString(1) + [DigitChar(1)] == "11";
  }

  /** A debug build with pymalloc and a two-byte `Py_UNICODE` reports "dm". */
  lemma AbiFlagsDebugPymalloc(config: ConfigVars)
    requires config.pyDebug && config.withPymalloc && config.unicodeSize != Some(4)
    ensures AbiFlags(config) == "dm"
  {
  }

  /** `_generic_interpreter`: the interpreter name followed by
      `py_version_nodot`. The source's fallback for a missing
      `py_version_nodot` joins integers and raises, modelled as an error. */
  function GenericInterpreter(name: string, config: ConfigVars): (r: Result<string, SysError>)
    ensures r.Failure? <==> config.pyVersionNodot == ""
    ensures r.Failure? ==> r.error == MissingVersionNodot
    ensures r.Success? ==> StartsWith(r.value, name) && r.value[|name|..] == config.pyVersionNodot
  {
    if config.pyVersionNodot == "" then Failure(MissingVersionNodot)
    else Success(name + config.pyVersionNodot)
  }

  /** `_generic_platforms`: just the normalised host platform. */
  function GenericPlatforms(platform: string): (r: seq<string>)
    ensures r == [NormalizeString(platform)]
    ensures |r| == 1 && '.' !in r[0] && '-' !in r[0] && |r[0]| == |platform|
  {
    [NormalizeString(platform)]
  }

  /** The platform list `sys_tags` uses: `_mac_platforms()` on Darwin (the
      host's release and its collapsed architecture), `_linux_platforms()`
      on Linux, `_generic_platforms()` elsewhere. */
  function PlatformsFor(env: Environment): (r: seq<string>)
    ensures env.system == "Darwin" ==>
              r == MacOS.Platforms(env.macVersion, MacOS.Architecture(env.macCpuArch, env.is32Bit))
    ensures env.system == "Linux" ==> r == Linux.LinuxPlatforms(env.hostPlatform, env.is32Bit, env.manylinuxProbe)
    ensures env.system == "Linux" ==> |r| >= 1 && r[|r| - 1] == Linux.HostPlatform(env.hostPlatform, env.is32Bit)
    ensures env.system != "Linux" && env.system != "Darwin" ==> r == [NormalizeString(env.hostPlatform)]
  {
    if env.system == "Darwin" then
      MacOS.Platforms(env.macVersion, MacOS.Architecture(env.macCpuArch, env.is32Bit))
    else if env.system == "Linux" then
      Linux.LinuxPlatforms(env.hostPlatform, env.is32Bit, env.manylinuxProbe)
    else
      GenericPlatforms(env.hostPlatform)
  }

  /** The interpreter tag of the family `sys_tags` selects. */
  function SysInterpreter(env: Environment): (r: Result<string, SysError>)
    ensures InterpreterName(env.implementation) == "cp" ==> r == Success(CpTag(env.version.0, env.version.1))
    ensures InterpreterName(env.implementation) == "pp" ==> r == Success(PyPyInterpreter(env.version.0, env.pypyVersion))
    ensures InterpreterName(env.implementation) !in {"cp", "pp"} ==>
              r == GenericInterpreter(InterpreterName(env.implementation), env.config)
    ensures r.Failure? <==> InterpreterName(env.implementation) !in {"cp", "pp"} && env.config.pyVersionNodot == ""
  {
    var name := InterpreterName(env.implementation);
    if name == "cp" then Success(CpTag(env.version.0, env.version.1))
    else if name == "pp" then Success(PyPyInterpreter(env.version.0, env.pypyVersion))
    else GenericInterpreter(name, env.config)
  }

  /** The ABI tag of the family `sys_tags` selects. */
  function SysAbi(env: Environment): (r: Result<string, SysError>)
    ensures InterpreterName(env.implementation) == "cp" ==> r == CPythonAbi(env.version, env.config)
    ensures InterpreterName(env.implementation) != "cp" ==> r == Success(GenericAbi(env.config))
    ensures r.Failure? <==> InterpreterName(env.implementation) == "cp"
                            && env.config.soabi != "" && Count(env.config.soabi, '-') < 2
  {
    if InterpreterName(env.implementation) == "cp" then CPythonAbi(env.version, env.config)
    else Success(GenericAbi(env.config))
  }

  /** The family block: `_cpython_tags`, `_pypy_tags` or `_generic_tags`. */
  function FamilyTags(env: Environment, interpreter: string, abi: string, platforms: seq<string>): (r: seq<Tag>)
    ensures |platforms| > 0 ==> |r| > 0 && r[0] == MakeTag(interpreter, abi, platforms[0])
    ensures InterpreterName(env.implementation) == "cp" ==> r == CPythonTags(env.version, interpreter, abi, platforms)
    ensures InterpreterName(env.implementation) == "pp" ==> r == PyPyTags(env.version, interpreter, abi, platforms)
    ensures InterpreterName(env.implementation) !in {"cp", "pp"} ==> r == GenericTags(interpreter, env.version, abi, platforms)
  {
    var name := InterpreterName(env.implementation);
    if name == "cp" then CPythonTags(env.version, interpreter, abi, platforms)
    else if name == "pp" then PyPyTags(env.version, interpreter, abi, platforms)
    else GenericTags(interpreter, env.version, abi, platforms)
  }

  /** `sys_tags`: the family block of the running interpreter, then the
      version-independent tail, most preferred first. */
  function SysTagsOf(env: Environment): (r: Result<seq<Tag>, SysError>)
    ensures r.Failure? <==> SysInterpreter(env).Failure? || SysAbi(env).Failure?
    ensures r.Success? ==>
              var tail := IndependentTags(SysInterpreter(env).value, env.version, PlatformsFor(env));
              |tail| <= |r.value| && r.value[|r.value| - |tail|..] == tail
  {
    var platforms := PlatformsFor(env);
    var interpreter :- SysInterpreter(env);
    var abi :- SysAbi(env);
    var family := FamilyTags(env, interpreter, abi, platforms);
    var tail := IndependentTags(interpreter, env.version, platforms);
    assert (family + tail)[|family + tail| - |tail|..] == tail;
    Success(family + tail)
  }

  /** `sys_tags` fails only on a malformed CPython SOABI or a generic
      interpreter without `py_version_nodot`. */
  lemma SysTagsFailures(env: Environment)
    ensures SysTagsOf(env).Failure? <==>
              var name := InterpreterName(env.implementation);
              || (name == "cp" && env.config.soabi != "" && Count(env.config.soabi, '-') < 2)
              || (name !in {"cp", "pp"} && env.config.pyVersionNodot == "")
  {
  }

  /** A successful `sys_tags` is the family block followed by the tail. */
  lemma SysTagsSplit(env: Environment)
    requires SysInterpreter(env).Success? && SysAbi(env).Success?
    ensures var interpreter := SysInterpreter(env).value;
            SysTagsOf(env).value == FamilyTags(env, interpreter, SysAbi(env).value, PlatformsFor(env))
                                    + IndependentTags(interpreter, env.version, PlatformsFor(env))
  {
  }

  /** `sys_tags` in full for each family: CPython runs `_cpython_tags` with
      `cp{M}{m}` and the CPython ABI, PyPy runs `_pypy_tags` with the PyPy
      interpreter and the generic ABI, every other interpreter runs
      `_generic_tags` with its generic interpreter tag and the generic ABI;
      the version-independent tail follows with the same interpreter. */
  lemma SysTagsShape(env: Environment)
    requires SysInterpreter(env).Success? && SysAbi(env).Success?
    ensures var name := InterpreterName(env.implementation);
            var platforms := PlatformsFor(env);
            var r := SysTagsOf(env).value;
            && (name == "cp" ==>
                  var interpreter := CpTag(env.version.0, env.version.1);
                  r == CPythonTags(env.version, interpreter, CPythonAbi(env.version, env.config).value, platforms)
                       + IndependentTags(interpreter, env.version, platforms))
            && (name == "pp" ==>
                  var interpreter := PyPyInterpreter(env.version.0, env.pypyVersion);
                  r == PyPyTags(env.version, interpreter, GenericAbi(env.config), platforms)
                       + IndependentTags(interpreter, env.version, platforms))
            && (name !in {"cp", "pp"} ==>
                  var interpreter := GenericInterpreter(name, env.config).value;
                  r == GenericTags(interpreter, env.version, GenericAbi(env.config), platforms)
                       + IndependentTags(interpreter, env.version, platforms))
  {
    SysTagsSplit(env);
  }

  /** With at least one platform, the most preferred tag pairs the
      interpreter and ABI with the first platform. */
  lemma SysTagsFirst(env: Environment)
    requires SysTagsOf(env).Success? && PlatformsFor(env) != []
    ensures SysTagsOf(env).value[0] == MakeTag(SysInterpreter(env).value, SysAbi(env).value, PlatformsFor(env)[0])
  {
    var platforms := PlatformsFor(env);
    var family := FamilyTags(env, SysInterpreter(env).value, SysAbi(env).value, platforms);
    var tail := IndependentTags(SysInterpreter(env).value, env.version, platforms);
    assert SysTagsOf(env).value == family + tail;
  }

  /** The least preferred tag is `py{major}0-none-any` when the minor
      version is at least 1, and `py{major}-none-any` for minor version 0. */
  lemma SysTagsLast(env: Environment)
    requires SysInterpreter(env).Success? && SysAbi(env).Success?
    ensures var r := SysTagsOf(env).value;
            |r| > 0 && r[|r| - 1] == if env.version.1 >= 1 then MakeTag(PyTag(env.version.0, 0), "none", "any")
                                     else MakeTag(PyMajorTag(env.version.0), "none", "any")
  {
    var r := SysTagsOf(env).value;
    var tail := IndependentTags(SysInterpreter(env).value, env.version, PlatformsFor(env));
    assert |tail| <= |r| && r[|r| - |tail|..] == tail;
    TailLast(r, SysInterpreter(env).value, env.version, PlatformsFor(env));
  }

  /** A sequence that ends with the version-independent tail ends with its last tag. */
  lemma TailLast(r: seq<Tag>, interpreter: string, version: Version, platforms: seq<string>)
    requires var tail := IndependentTags(interpreter, version, platforms);
             |tail| <= |r| && r[|r| - |tail|..] == tail
    ensures |r| > 0 && r[|r| - 1] == if version.1 >= 1 then MakeTag(PyTag(version.0, 0), "none", "any")
                                     else MakeTag(PyMajorTag(version.0), "none", "any")
  {
    var tail := IndependentTags(interpreter, version, platforms);
    IndependentTagsLast(interpreter, version, platforms);
    assert r[|r| - |tail|..][|tail| - 1] == r[|r| - 1];
  }
}
